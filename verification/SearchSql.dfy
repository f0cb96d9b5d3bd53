/** searchSQL as a relational program over sets of rows: two DISTINCT ON selections, four left joins, a filter,
    and the union with a third DISTINCT ON under an anti-join. */
module SearchSql {
  import opened Options
  import opened MacAddress

  datatype MacRow = MacRow(node: string, mac: string, iface: Option<string>, time: int)
  datatype ArpRow = ArpRow(node: string, ip: string, mac: Option<string>, time: int)
  datatype IfRow = IfRow(node: string, name: string, description: Option<string>, accessVlan: int, voiceVlan: Option<int>)
  datatype VlanRow = VlanRow(node: string, id: int, name: Option<string>)

  datatype Db = Db(macs: set<MacRow>, arps: set<ArpRow>, ifaces: set<IfRow>, vlans: set<VlanRow>)

  /** One row of the answer. */
  datatype Result = Result(
    node: string,
    mac: string,
    ip: Option<string>,
    iface: Option<string>,
    description: Option<string>,
    accessVlan: Option<int>,
    accessVlanName: Option<string>,
    voiceVlan: Option<int>,
    voiceVlanName: Option<string>)

  /** The UNIQUE constraints of the interface and VLAN tables. */
  ghost predicate UniqueKeys(db: Db) {
    && (forall a, b :: a in db.ifaces && b in db.ifaces && a.node == b.node && a.name == b.name ==> a == b)
    && (forall a, b :: a in db.vlans && b in db.vlans && a.node == b.node && a.id == b.id ==> a == b)
  }

  // ---- DISTINCT ON -----------------------------------------------------------------------------------------------

  /** ORDER BY two keys, the first one ascending, then the second. */
  predicate NoLater(a: (int, int), b: (int, int)) {
    a.0 < b.0 || (a.0 == b.0 && a.1 <= b.1)
  }

  /** `out` holds one row per key that occurs, and that row comes no later in the order than any other row
      with its key. Which of several equally early rows it is, is up to the database. */
  ghost predicate IsDistinctOn<R(!new), K>(rows: set<R>, key: R -> K, order: R -> (int, int), out: set<R>) {
    && out <= rows
    && (forall r :: r in rows ==> exists o :: o in out && key(o) == key(r))
    && (forall o, p :: o in out && p in out && key(o) == key(p) ==> o == p)
    && (forall o, r :: o in out && r in rows && key(o) == key(r) ==> NoLater(order(o), order(r)))
  }

  /** A loop that makes such a selection, whatever order the rows are read in. */
  method DistinctOn<R(==, !new), K(==)>(rows: set<R>, key: R -> K, order: R -> (int, int)) returns (out: set<R>)
    ensures IsDistinctOn(rows, key, order, out)
  {
    var best: map<K, R> := map[];
    var rest := rows;
    while rest != {}
      invariant rest <= rows
      invariant forall k :: k in best ==> best[k] in rows - rest && key(best[k]) == k
      invariant forall r :: r in rows - rest ==> key(r) in best && NoLater(order(best[key(r)]), order(r))
      decreases rest
    {
      var r :| r in rest;
      rest := rest - {r};
      if key(r) !in best || !NoLater(order(best[key(r)]), order(r)) {
        best := best[key(r) := r];
      }
    }
    out := set k | k in best :: best[k];
    forall r | r in rows
      ensures exists o :: o in out && key(o) == key(r)
    {
      assert best[key(r)] in out;
    }
  }

  predicate StartsWithIgnoringCase(s: string, prefix: string) {
    |prefix| <= |s| && Lower(s[..|prefix|]) == Lower(prefix)
  }

  /** Physical ports before port-channels before purely logical interfaces. */
  function Rank(iface: Option<string>): (r: int)
    ensures 1 <= r <= 3
  {
    if iface.None? then 1
    else if StartsWithIgnoringCase(iface.value, "Vlan") then 3
    else if StartsWithIgnoringCase(iface.value, "Loopback") then 3
    else if StartsWithIgnoringCase(iface.value, "Tunnel") then 3
    else if StartsWithIgnoringCase(iface.value, "Port-channel") then 2
    else 1
  }

  ghost predicate IsBestMac(db: Db, best: set<MacRow>) {
    IsDistinctOn(db.macs, (r: MacRow) => r.mac, (r: MacRow) => (Rank(r.iface), -r.time), best)
  }

  ghost predicate IsLatestArp(db: Db, latest: set<ArpRow>) {
    IsDistinctOn(db.arps, (r: ArpRow) => r.mac, (r: ArpRow) => (-r.time, 0), latest)
  }

  function Asked(db: Db, ips: set<string>): set<ArpRow> {
    set a | a in db.arps && a.ip in ips
  }

  ghost predicate IsNewestPerIp(db: Db, ips: set<string>, newest: set<ArpRow>) {
    IsDistinctOn(Asked(db, ips), (r: ArpRow) => r.ip, (r: ArpRow) => (-r.time, 0), newest)
  }

  // ---- Left joins -------------------------------------------------------------------------------------------------

  /** Every pair that matches, and every left row that matches nothing, once, with NULLs. */
  function LeftJoin<A, B>(left: set<A>, right: set<B>, on: (A, B) -> bool): set<(A, Option<B>)> {
    (set a, b | a in left && b in right && on(a, b) :: (a, Some(b)))
    + (set a | a in left && forall b :: b in right ==> !on(a, b) :: (a, None))
  }

  /** At most one right row matches any left row. */
  ghost predicate MatchesAtMostOne<A(!new), B>(right: set<B>, on: (A, B) -> bool) {
    forall a: A, b, c :: b in right && c in right && on(a, b) && on(a, c) ==> b == c
  }

  lemma LeftJoinKeepsEveryRow<A(!new), B>(left: set<A>, right: set<B>, on: (A, B) -> bool, a: A) returns (o: Option<B>)
    requires a in left
    ensures (a, o) in LeftJoin(left, right, on)
  {
    if b :| b in right && on(a, b) {
      o := Some(b);
    } else {
      o := None;
    }
  }

  /** On a unique key a left join yields each left row exactly once. */
  lemma LeftJoinIsFunctional<A(!new), B>(left: set<A>, right: set<B>, on: (A, B) -> bool, a: A, o: Option<B>, p: Option<B>)
    requires MatchesAtMostOne(right, on)
    requires (a, o) in LeftJoin(left, right, on) && (a, p) in LeftJoin(left, right, on)
    ensures o == p && a in left
  {
  }

  lemma LeftJoinMeaning<A, B>(left: set<A>, right: set<B>, on: (A, B) -> bool, a: A, o: Option<B>)
    requires (a, o) in LeftJoin(left, right, on)
    ensures a in left
    ensures o.Some? ==> o.value in right && on(a, o.value)
    ensures o.None? ==> forall b :: b in right ==> !on(a, b)
  {
  }

  type Join1 = (MacRow, Option<ArpRow>)
  type Join2 = (Join1, Option<IfRow>)
  type Join3 = (Join2, Option<VlanRow>)
  type Join4 = (Join3, Option<VlanRow>)

  predicate OnArp(m: MacRow, a: ArpRow) {
    a.mac == Some(m.mac)
  }

  predicate OnIface(j: Join1, i: IfRow) {
    j.0.node == i.node && j.0.iface == Some(i.name)
  }

  predicate OnAccess(j: Join2, v: VlanRow) {
    j.0.0.node == v.node && j.1.Some? && j.1.value.accessVlan == v.id
  }

  predicate OnVoice(j: Join3, v: VlanRow) {
    j.0.0.0.node == v.node && j.0.1.Some? && j.0.1.value.voiceVlan == Some(v.id)
  }

  function J1(best: set<MacRow>, latest: set<ArpRow>): set<Join1> {
    LeftJoin(best, latest, OnArp)
  }

  function J2(db: Db, best: set<MacRow>, latest: set<ArpRow>): set<Join2> {
    LeftJoin(J1(best, latest), db.ifaces, OnIface)
  }

  function J3(db: Db, best: set<MacRow>, latest: set<ArpRow>): set<Join3> {
    LeftJoin(J2(db, best, latest), db.vlans, OnAccess)
  }

  function J4(db: Db, best: set<MacRow>, latest: set<ArpRow>): set<Join4> {
    LeftJoin(J3(db, best, latest), db.vlans, OnVoice)
  }

  function MacOf(j: Join4): MacRow {
    j.0.0.0.0
  }

  function ArpOf(j: Join4): Option<ArpRow> {
    j.0.0.0.1
  }

  /** The select list of the first half. */
  function Project(j: Join4): Result {
    var (m, a, i, dv, vv) := (j.0.0.0.0, j.0.0.0.1, j.0.0.1, j.0.1, j.1);
    Result(m.node, m.mac, if a.Some? then Some(a.value.ip) else None, m.iface,
           if i.Some? then i.value.description else None,
           if i.Some? then Some(i.value.accessVlan) else None, if dv.Some? then dv.value.name else None,
           if i.Some? then i.value.voiceVlan else None, if vv.Some? then vv.value.name else None)
  }

  predicate Wanted(m: MacRow, a: Option<ArpRow>, macs: set<string>, ips: set<string>) {
    Lower(m.mac) in macs || (a.Some? && a.value.ip in ips)
  }

  function FirstHalf(db: Db, best: set<MacRow>, latest: set<ArpRow>, macs: set<string>, ips: set<string>): set<Result> {
    set j | j in J4(db, best, latest) && Wanted(MacOf(j), ArpOf(j), macs, ips) :: Project(j)
  }

  /** NOT EXISTS: no MAC row has this ARP row's address, ignoring case; a NULL address equals nothing. */
  predicate Unseen(db: Db, a: ArpRow) {
    a.mac.None? || forall m :: m in db.macs ==> Lower(m.mac) != Lower(a.mac.value)
  }

  function ArpOnly(a: ArpRow): Result {
    Result(a.node, if a.mac.Some? then a.mac.value else "", Some(a.ip), None, None, None, None, None, None)
  }

  function SecondHalf(db: Db, newest: set<ArpRow>): set<Result> {
    set a | a in newest && Unseen(db, a) :: ArpOnly(a)
  }

  /** An answer the database may give. */
  ghost predicate IsAnswer(db: Db, macs: set<string>, ips: set<string>, answer: set<Result>) {
    exists best, latest, newest ::
      && IsBestMac(db, best) && IsLatestArp(db, latest) && IsNewestPerIp(db, ips, newest)
      && answer == FirstHalf(db, best, latest, macs, ips) + SecondHalf(db, newest)
  }

  // ---- The joins are functional -----------------------------------------------------------------------------------

  lemma JoinsMatchAtMostOne(db: Db, latest: set<ArpRow>)
    requires UniqueKeys(db) && IsLatestArp(db, latest)
    ensures MatchesAtMostOne(latest, OnArp)
    ensures MatchesAtMostOne(db.ifaces, OnIface)
    ensures MatchesAtMostOne(db.vlans, OnAccess)
    ensures MatchesAtMostOne(db.vlans, OnVoice)
  {
  }

  /** Despite four left joins, each row of best_mac appears exactly once. */
  lemma OneTuplePerMac(db: Db, best: set<MacRow>, latest: set<ArpRow>, j: Join4, k: Join4)
    requires UniqueKeys(db) && IsLatestArp(db, latest)
    requires j in J4(db, best, latest) && k in J4(db, best, latest) && MacOf(j) == MacOf(k)
    ensures j == k
  {
    JoinsMatchAtMostOne(db, latest);
    var (j3, k3) := (j.0, k.0);
    LeftJoinMeaning(J3(db, best, latest), db.vlans, OnVoice, j3, j.1);
    LeftJoinMeaning(J3(db, best, latest), db.vlans, OnVoice, k3, k.1);
    var (j2, k2) := (j3.0, k3.0);
    LeftJoinMeaning(J2(db, best, latest), db.vlans, OnAccess, j2, j3.1);
    LeftJoinMeaning(J2(db, best, latest), db.vlans, OnAccess, k2, k3.1);
    var (j1, k1) := (j2.0, k2.0);
    LeftJoinMeaning(J1(best, latest), db.ifaces, OnIface, j1, j2.1);
    LeftJoinMeaning(J1(best, latest), db.ifaces, OnIface, k1, k2.1);
    LeftJoinIsFunctional(best, latest, OnArp, j1.0, j1.1, k1.1);
    LeftJoinIsFunctional(J1(best, latest), db.ifaces, OnIface, j1, j2.1, k2.1);
    LeftJoinIsFunctional(J2(db, best, latest), db.vlans, OnAccess, j2, j3.1, k3.1);
    LeftJoinIsFunctional(J3(db, best, latest), db.vlans, OnVoice, j3, j.1, k.1);
  }

  /** What a joined tuple is made of. */
  lemma TupleMeaning(db: Db, best: set<MacRow>, latest: set<ArpRow>, j: Join4)
    requires j in J4(db, best, latest)
    ensures MacOf(j) in best
    ensures ArpOf(j).Some? ==> ArpOf(j).value in latest && ArpOf(j).value.mac == Some(MacOf(j).mac)
    ensures ArpOf(j).None? ==> forall a :: a in latest ==> a.mac != Some(MacOf(j).mac)
  {
    LeftJoinMeaning(J3(db, best, latest), db.vlans, OnVoice, j.0, j.1);
    LeftJoinMeaning(J2(db, best, latest), db.vlans, OnAccess, j.0.0, j.0.1);
    LeftJoinMeaning(J1(best, latest), db.ifaces, OnIface, j.0.0.0, j.0.0.1);
    LeftJoinMeaning(best, latest, OnArp, j.0.0.0.0, j.0.0.0.1);
  }

  lemma TupleExists(db: Db, best: set<MacRow>, latest: set<ArpRow>, m: MacRow) returns (j: Join4)
    requires m in best
    ensures j in J4(db, best, latest) && MacOf(j) == m
  {
    var a := LeftJoinKeepsEveryRow(best, latest, OnArp, m);
    var i := LeftJoinKeepsEveryRow(J1(best, latest), db.ifaces, OnIface, (m, a));
    var dv := LeftJoinKeepsEveryRow(J2(db, best, latest), db.vlans, OnAccess, ((m, a), i));
    var vv := LeftJoinKeepsEveryRow(J3(db, best, latest), db.vlans, OnVoice, (((m, a), i), dv));
    j := ((((m, a), i), dv), vv);
  }

  /** What is known of best_mac. */
  lemma BestMacMeaning(db: Db, best: set<MacRow>)
    requires IsBestMac(db, best)
    ensures best <= db.macs
    ensures forall m :: m in db.macs ==> exists b :: b in best && b.mac == m.mac
    ensures forall b, c :: b in best && c in best && b.mac == c.mac ==> b == c
    ensures forall b, m :: b in best && m in db.macs && b.mac == m.mac ==>
                             Rank(b.iface) < Rank(m.iface) || (Rank(b.iface) == Rank(m.iface) && b.time >= m.time)
  {
    var key, order := (r: MacRow) => r.mac, (r: MacRow) => (Rank(r.iface), -r.time);
    forall m | m in db.macs
      ensures exists b :: b in best && b.mac == m.mac
    {
      var o :| o in best && key(o) == key(m);
    }
    forall b, c | b in best && c in best && b.mac == c.mac
      ensures b == c
    {
      assert key(b) == key(c);
    }
    forall b, m | b in best && m in db.macs && b.mac == m.mac
      ensures Rank(b.iface) < Rank(m.iface) || (Rank(b.iface) == Rank(m.iface) && b.time >= m.time)
    {
      assert key(b) == key(m);
      assert NoLater(order(b), order(m));
    }
  }

  /** Where a row of the first half comes from. */
  lemma FirstHalfRow(db: Db, best: set<MacRow>, latest: set<ArpRow>, macs: set<string>, ips: set<string>, r: Result)
    returns (j: Join4)
    requires r in FirstHalf(db, best, latest, macs, ips)
    ensures j in J4(db, best, latest) && Project(j) == r
    ensures MacOf(j) in best && MacOf(j).node == r.node && MacOf(j).mac == r.mac && MacOf(j).iface == r.iface
    ensures r.ip.Some? ==> ArpOf(j).Some? && ArpOf(j).value in latest && ArpOf(j).value.mac == Some(r.mac) && ArpOf(j).value.ip == r.ip.value
  {
    j :| j in J4(db, best, latest) && Project(j) == r;
    TupleMeaning(db, best, latest, j);
  }

  // ---- The shape of the answer ------------------------------------------------------------------------------------

  /** The first half yields at most one row per stored MAC. */
  lemma OneRowPerMac(db: Db, best: set<MacRow>, latest: set<ArpRow>, macs: set<string>, ips: set<string>, r: Result, s: Result)
    requires UniqueKeys(db) && IsBestMac(db, best) && IsLatestArp(db, latest)
    requires r in FirstHalf(db, best, latest, macs, ips) && s in FirstHalf(db, best, latest, macs, ips)
    requires r.mac == s.mac
    ensures r == s
  {
    var j := FirstHalfRow(db, best, latest, macs, ips, r);
    var k := FirstHalfRow(db, best, latest, macs, ips, s);
    assert MacOf(j) == MacOf(k) by {
      BestMacMeaning(db, best);
    }
    OneTuplePerMac(db, best, latest, j, k);
  }

  /** Its port is one the address was seen on, of minimal interface rank, and newest among equal ranks. */
  lemma PortIsBest(db: Db, best: set<MacRow>, latest: set<ArpRow>, macs: set<string>, ips: set<string>, r: Result)
    returns (m: MacRow)
    requires IsBestMac(db, best)
    requires r in FirstHalf(db, best, latest, macs, ips)
    ensures m in db.macs && m.node == r.node && m.mac == r.mac && m.iface == r.iface
    ensures forall o :: o in db.macs && o.mac == r.mac ==>
                          Rank(m.iface) < Rank(o.iface) || (Rank(m.iface) == Rank(o.iface) && m.time >= o.time)
  {
    var j := FirstHalfRow(db, best, latest, macs, ips, r);
    m := MacOf(j);
    BestMacMeaning(db, best);
  }

  /** The two characters are the same, or the same letter in two cases. */
  predicate SameLetter(c: char, d: char) {
    || c == d
    || ('A' <= c <= 'Z' && d as int == c as int + 32)
    || ('A' <= d <= 'Z' && c as int == d as int + 32)
  }

  /** What ILIKE with a pattern that ends in its only wildcard accepts. */
  lemma StartsWithMeaning(s: string, prefix: string)
    ensures StartsWithIgnoringCase(s, prefix) <==>
            |prefix| <= |s| && forall i :: 0 <= i < |prefix| ==> SameLetter(s[i], prefix[i])
  {
    if |prefix| <= |s| {
      forall i | 0 <= i < |prefix|
        ensures Lower(s[..|prefix|])[i] == Lower(prefix)[i] <==> SameLetter(s[i], prefix[i])
      {
      }
      if forall i :: 0 <= i < |prefix| ==> SameLetter(s[i], prefix[i]) {
        assert Lower(s[..|prefix|]) == Lower(prefix);
      }
    }
  }

  /** A purely logical interface: a Vlan, a Loopback or a Tunnel. */
  predicate IsLogical(iface: Option<string>) {
    && iface.Some?
    && (|| StartsWithIgnoringCase(iface.value, "Vlan")
        || StartsWithIgnoringCase(iface.value, "Loopback")
        || StartsWithIgnoringCase(iface.value, "Tunnel"))
  }

  predicate IsPortChannel(iface: Option<string>) {
    iface.Some? && StartsWithIgnoringCase(iface.value, "Port-channel")
  }

  /** The port shown for an address is physical if the address was seen on any physical port, or on a port
      without a name; failing that a port-channel if it was seen on one; and within its class it is the one
      seen last. */
  lemma PhysicalPortIsPreferred(db: Db, best: set<MacRow>, latest: set<ArpRow>, macs: set<string>, ips: set<string>,
                                r: Result, o: MacRow) returns (m: MacRow)
    requires IsBestMac(db, best) && r in FirstHalf(db, best, latest, macs, ips)
    requires o in db.macs && o.mac == r.mac
    ensures m in db.macs && m.node == r.node && m.mac == r.mac && m.iface == r.iface
    ensures !IsLogical(o.iface) && !IsPortChannel(o.iface) ==> !IsLogical(r.iface) && !IsPortChannel(r.iface)
    ensures !IsLogical(o.iface) ==> !IsLogical(r.iface)
    ensures IsLogical(o.iface) == IsLogical(r.iface) && IsPortChannel(o.iface) == IsPortChannel(r.iface) ==> o.time <= m.time
  {
    m := PortIsBest(db, best, latest, macs, ips, r);
    LogicalIsNoPortChannel(o.iface);
    LogicalIsNoPortChannel(r.iface);
  }

  /** The prefixes exclude each other, so the order in which they are tried does not matter. */
  lemma LogicalIsNoPortChannel(iface: Option<string>)
    ensures !(IsLogical(iface) && IsPortChannel(iface))
  {
    if IsPortChannel(iface) {
      StartsWithMeaning(iface.value, "Port-channel");
      StartsWithMeaning(iface.value, "Vlan");
      StartsWithMeaning(iface.value, "Loopback");
      StartsWithMeaning(iface.value, "Tunnel");
      var p, v, l, t := "Port-channel", "Vlan", "Loopback", "Tunnel";
      assert SameLetter(iface.value[0], p[0]);
      assert !SameLetter(iface.value[0], v[0]) && !SameLetter(iface.value[0], l[0]) && !SameLetter(iface.value[0], t[0]);
    }
  }

  /** A concrete address seen on an access port, and since then on the port-channel and the Vlan interface of
      another switch: every answer that has its row shows the access port. */
  lemma AccessPortIsShown(db: Db, best: set<MacRow>, latest: set<ArpRow>, macs: set<string>, ips: set<string>, r: Result)
    requires db.macs == {MacRow("sw1", "m", Some("Gi1/0/1"), 5), MacRow("sw2", "m", Some("port-channel1"), 6),
                         MacRow("sw2", "m", Some("VLAN10"), 7)}
    requires IsBestMac(db, best) && r in FirstHalf(db, best, latest, macs, ips)
    ensures r.node == "sw1" && r.mac == "m" && r.iface == Some("Gi1/0/1")
  {
    var a, b, c := "Gi1/0/1", "port-channel1", "VLAN10";
    var own := PortIsBest(db, best, latest, macs, ips, r);
    var m := PhysicalPortIsPreferred(db, best, latest, macs, ips, r, MacRow("sw1", "m", Some(a), 5));
    ConcreteClasses(a, b, c);
  }

  lemma ConcreteClasses(a: string, b: string, c: string)
    requires a == "Gi1/0/1" && b == "port-channel1" && c == "VLAN10"
    ensures !IsLogical(Some(a)) && !IsPortChannel(Some(a)) && IsPortChannel(Some(b)) && IsLogical(Some(c))
  {
    StartsWithMeaning(a, "Vlan");
    StartsWithMeaning(a, "Loopback");
    StartsWithMeaning(a, "Tunnel");
    StartsWithMeaning(a, "Port-channel");
    StartsWithMeaning(b, "Port-channel");
    StartsWithMeaning(c, "Vlan");
    var p, v, l, t := "Port-channel", "Vlan", "Loopback", "Tunnel";
    assert !SameLetter(a[0], p[0]) && !SameLetter(a[0], v[0]) && !SameLetter(a[0], l[0]) && !SameLetter(a[0], t[0]);
  }

  /** Some row of each half has the same address, ignoring case. */
  ghost predicate Overlap(first: set<Result>, second: set<Result>) {
    exists r, s :: r in first && s in second && Lower(r.mac) == Lower(s.mac)
  }

  lemma SharedAddressIsEmpty(db: Db, best: set<MacRow>, latest: set<ArpRow>, newest: set<ArpRow>,
                             macs: set<string>, ips: set<string>, r: Result, s: Result)
    requires IsBestMac(db, best) && IsLatestArp(db, latest)
    requires r in FirstHalf(db, best, latest, macs, ips) && s in SecondHalf(db, newest)
    requires Lower(r.mac) == Lower(s.mac)
    ensures r.mac == "" && exists a :: a in newest && a.mac.None? && s == ArpOnly(a)
  {
    var j := FirstHalfRow(db, best, latest, macs, ips, r);
    BestMacMeaning(db, best);
    var a :| a in newest && Unseen(db, a) && ArpOnly(a) == s;
    assert MacOf(j) in db.macs;
    assert |r.mac| == |Lower(r.mac)| == |Lower(s.mac)| == |s.mac|;
  }

  /** The two halves share an address exactly when a newest ARP row has none, so that the answer shows an empty
      one for it, and the first half has a row for an empty stored address. */
  lemma HalvesOverlapIff(db: Db, best: set<MacRow>, latest: set<ArpRow>, newest: set<ArpRow>,
                         macs: set<string>, ips: set<string>)
    requires IsBestMac(db, best) && IsLatestArp(db, latest)
    ensures var first := FirstHalf(db, best, latest, macs, ips);
            Overlap(first, SecondHalf(db, newest)) <==>
            (exists a :: a in newest && a.mac.None?) && (exists r :: r in first && r.mac == "")
  {
    var first, second := FirstHalf(db, best, latest, macs, ips), SecondHalf(db, newest);
    if r, s :| r in first && s in second && Lower(r.mac) == Lower(s.mac) {
      SharedAddressIsEmpty(db, best, latest, newest, macs, ips, r, s);
    }
    if a, r :| a in newest && a.mac.None? && r in first && r.mac == "" {
      assert ArpOnly(a) in second && ArpOnly(a).mac == r.mac;
    }
  }

  /** Rows without a common key are all selected. */
  lemma AllAreSelected<R(!new), K>(rows: set<R>, key: R -> K, order: R -> (int, int))
    requires forall a, b :: a in rows && b in rows && key(a) == key(b) ==> a == b
    ensures IsDistinctOn(rows, key, order, rows)
  {
  }

  /** With an empty stored address, an ARP row that names it and one that names none, they do. */
  lemma EmptyAddressOverlaps(db: Db, ips: set<string>, m: MacRow, a: ArpRow, b: ArpRow)
    requires UniqueKeys(db) && Asked(db, ips) == db.arps == {a, b} && db.macs == {m}
    requires a.ip != b.ip && m.mac == "" && a.mac == None && b.mac == Some("")
    ensures IsBestMac(db, db.macs) && IsLatestArp(db, db.arps) && IsNewestPerIp(db, ips, db.arps)
    ensures Overlap(FirstHalf(db, db.macs, db.arps, {}, ips), SecondHalf(db, db.arps))
  {
    AllAreSelected(db.macs, (r: MacRow) => r.mac, (r: MacRow) => (Rank(r.iface), -r.time));
    AllAreSelected(db.arps, (r: ArpRow) => r.mac, (r: ArpRow) => (-r.time, 0));
    AllAreSelected(db.arps, (r: ArpRow) => r.ip, (r: ArpRow) => (-r.time, 0));
    assert b.ip in ips by {
      assert b in Asked(db, ips);
    }
    var r := WantedRow(db, db.macs, db.arps, {}, ips, m, b);
    var j := FirstHalfRow(db, db.macs, db.arps, {}, ips, r);
    assert r.mac == "";
    HalvesOverlapIff(db, db.macs, db.arps, db.arps, {}, ips);
    assert a in db.arps && a.mac.None?;
  }

  /** A concrete answer with such an overlap. */
  lemma HalvesCanOverlap()
    ensures var m, a, b := MacRow("n", "", None, 0), ArpRow("n", "1.1.1.1", None, 0), ArpRow("n", "2.2.2.2", Some(""), 0);
            var db := Db({m}, {a, b}, {}, {});
            var ips := {"1.1.1.1", "2.2.2.2"};
            && IsBestMac(db, {m}) && IsLatestArp(db, {a, b}) && IsNewestPerIp(db, ips, {a, b})
            && Overlap(FirstHalf(db, {m}, {a, b}, {}, ips), SecondHalf(db, {a, b}))
  {
    var m, a, b := MacRow("n", "", None, 0), ArpRow("n", "1.1.1.1", None, 0), ArpRow("n", "2.2.2.2", Some(""), 0);
    var db := Db({m}, {a, b}, {}, {});
    assert Asked(db, {"1.1.1.1", "2.2.2.2"}) == db.arps;
    assert a.ip[0] != b.ip[0];
    EmptyAddressOverlaps(db, {"1.1.1.1", "2.2.2.2"}, m, a, b);
  }

  /** The columns of a first-half row, joined by key: the interface of that name on that node, the VLAN names of
      that node, the newest ARP row of that address; NULL where there is none. */
  ghost predicate RowIsJoined(db: Db, latest: set<ArpRow>, r: Result) {
    && (forall i :: i in db.ifaces && i.node == r.node && r.iface == Some(i.name) ==>
          r.description == i.description && r.accessVlan == Some(i.accessVlan) && r.voiceVlan == i.voiceVlan)
    && ((forall i :: i in db.ifaces && i.node == r.node ==> r.iface != Some(i.name)) ==>
          r.description.None? && r.accessVlan.None? && r.voiceVlan.None?)
    && NameIsJoined(db, r.node, r.accessVlan, r.accessVlanName)
    && NameIsJoined(db, r.node, r.voiceVlan, r.voiceVlanName)
    && (forall a :: a in latest && a.mac == Some(r.mac) ==> r.ip == Some(a.ip))
    && ((forall a :: a in latest ==> a.mac != Some(r.mac)) ==> r.ip.None?)
  }

  ghost predicate NameIsJoined(db: Db, node: string, vlan: Option<int>, name: Option<string>) {
    && (forall v :: v in db.vlans && v.node == node && vlan == Some(v.id) ==> name == v.name)
    && ((forall v :: v in db.vlans && v.node == node ==> vlan != Some(v.id)) ==> name.None?)
  }

  lemma TupleIfaceMeaning(db: Db, best: set<MacRow>, latest: set<ArpRow>, j: Join4)
    requires j in J4(db, best, latest)
    ensures var (m, i) := (MacOf(j), j.0.0.1);
            && (i.Some? ==> i.value in db.ifaces && m.node == i.value.node && m.iface == Some(i.value.name))
            && (i.None? ==> forall o :: o in db.ifaces && o.node == m.node ==> m.iface != Some(o.name))
  {
    LeftJoinMeaning(J3(db, best, latest), db.vlans, OnVoice, j.0, j.1);
    LeftJoinMeaning(J2(db, best, latest), db.vlans, OnAccess, j.0.0, j.0.1);
    LeftJoinMeaning(J1(best, latest), db.ifaces, OnIface, j.0.0.0, j.0.0.1);
    if j.0.0.1.None? {
      forall o | o in db.ifaces && o.node == MacOf(j).node
        ensures MacOf(j).iface != Some(o.name)
      {
        assert !OnIface(j.0.0.0, o);
      }
    }
  }

  lemma TupleVlanMeaning(db: Db, best: set<MacRow>, latest: set<ArpRow>, j: Join4)
    requires UniqueKeys(db) && j in J4(db, best, latest)
    ensures NameIsJoined(db, Project(j).node, Project(j).accessVlan, Project(j).accessVlanName)
    ensures NameIsJoined(db, Project(j).node, Project(j).voiceVlan, Project(j).voiceVlanName)
  {
    LeftJoinMeaning(J3(db, best, latest), db.vlans, OnVoice, j.0, j.1);
    LeftJoinMeaning(J2(db, best, latest), db.vlans, OnAccess, j.0.0, j.0.1);
    forall v | v in db.vlans && v.node == Project(j).node
      ensures OnAccess(j.0.0, v) <==> Project(j).accessVlan == Some(v.id)
      ensures OnVoice(j.0, v) <==> Project(j).voiceVlan == Some(v.id)
    {
    }
  }

  /** Every row of the first half is joined by key and was asked for, by its address or by its IP. */
  lemma FirstHalfIsJoined(db: Db, best: set<MacRow>, latest: set<ArpRow>, macs: set<string>, ips: set<string>, r: Result)
    requires UniqueKeys(db) && IsLatestArp(db, latest)
    requires r in FirstHalf(db, best, latest, macs, ips)
    ensures RowIsJoined(db, latest, r)
    ensures Lower(r.mac) in macs || (r.ip.Some? && r.ip.value in ips)
  {
    var j :| j in J4(db, best, latest) && Wanted(MacOf(j), ArpOf(j), macs, ips) && Project(j) == r;
    TupleMeaning(db, best, latest, j);
    TupleIfaceMeaning(db, best, latest, j);
    TupleVlanMeaning(db, best, latest, j);
    JoinsMatchAtMostOne(db, latest);
    forall a | a in latest && a.mac == Some(r.mac)
      ensures r.ip == Some(a.ip)
    {
      assert OnArp(MacOf(j), a) && OnArp(MacOf(j), ArpOf(j).value);
    }
  }

  /** The IP of a first-half row is the one its address was seen with last; there is none exactly when no ARP row
      names the address. */
  lemma IpIsNewestOfMac(db: Db, best: set<MacRow>, latest: set<ArpRow>, macs: set<string>, ips: set<string>, r: Result,
                        o: ArpRow) returns (a: ArpRow)
    requires UniqueKeys(db) && IsLatestArp(db, latest) && r in FirstHalf(db, best, latest, macs, ips)
    requires o in db.arps && o.mac == Some(r.mac)
    ensures a in db.arps && a.mac == Some(r.mac) && r.ip == Some(a.ip) && o.time <= a.time
  {
    FirstHalfIsJoined(db, best, latest, macs, ips, r);
    var key, order := (x: ArpRow) => x.mac, (x: ArpRow) => (-x.time, 0);
    a :| a in latest && key(a) == key(o);
    assert NoLater(order(a), order(o));
  }

  /** A row of the second half is a newest ARP row of an asked IP whose address no MAC row has; it shows no
      port. */
  lemma SecondHalfIsArpOnly(db: Db, ips: set<string>, newest: set<ArpRow>, r: Result) returns (a: ArpRow)
    requires IsNewestPerIp(db, ips, newest) && r in SecondHalf(db, newest)
    ensures a in db.arps && a.node == r.node && r.ip == Some(a.ip) && a.ip in ips
    ensures r.mac == if a.mac.Some? then a.mac.value else ""
    ensures forall o :: o in db.arps && o.ip == a.ip ==> o.time <= a.time
    ensures a.mac.Some? ==> forall m :: m in db.macs ==> Lower(m.mac) != Lower(r.mac)
    ensures r.iface.None? && r.description.None? && r.accessVlan.None? && r.accessVlanName.None?
    ensures r.voiceVlan.None? && r.voiceVlanName.None?
  {
    a :| a in newest && Unseen(db, a) && ArpOnly(a) == r;
    var key, order := (o: ArpRow) => o.ip, (o: ArpRow) => (-o.time, 0);
    forall o | o in db.arps && o.ip == a.ip
      ensures o.time <= a.time
    {
      assert o in Asked(db, ips) && key(o) == key(a);
      assert NoLater(order(a), order(o));
    }
  }

  // ---- Exactly what is found ----------------------------------------------------------------------------------------

  ghost predicate ShowsIp(answer: set<Result>, ip: string) {
    exists r :: r in answer && r.ip == Some(ip)
  }

  /** An asked address that mac_table stores under one of its forms is in the answer. */
  lemma StoredMacIsShown(db: Db, best: set<MacRow>, latest: set<ArpRow>, macs: set<string>, ips: set<string>, m: MacRow)
    requires IsBestMac(db, best) && m in db.macs && Lower(m.mac) in macs
    ensures exists r :: r in FirstHalf(db, best, latest, macs, ips) && r.mac == m.mac
  {
    BestMacMeaning(db, best);
    var b :| b in best && b.mac == m.mac;
    var j := TupleExists(db, best, latest, b);
    assert Project(j) in FirstHalf(db, best, latest, macs, ips);
  }

  /** A row of best_mac that is wanted shows its own newest ARP row. */
  lemma WantedRow(db: Db, best: set<MacRow>, latest: set<ArpRow>, macs: set<string>, ips: set<string>, b: MacRow, a: ArpRow)
    returns (r: Result)
    requires UniqueKeys(db) && IsLatestArp(db, latest)
    requires b in best && a in latest && a.mac == Some(b.mac) && a.ip in ips
    ensures r in FirstHalf(db, best, latest, macs, ips) && r.ip == Some(a.ip)
  {
    var j := TupleExists(db, best, latest, b);
    TupleMeaning(db, best, latest, j);
    JoinsMatchAtMostOne(db, latest);
    assert OnArp(b, a) && OnArp(b, ArpOf(j).value);
    r := Project(j);
    assert Wanted(MacOf(j), ArpOf(j), macs, ips);
  }

  /** An asked IP is in the first half exactly when it is on the newest ARP row of some stored MAC. */
  lemma IpInFirstHalfIff(db: Db, best: set<MacRow>, latest: set<ArpRow>, macs: set<string>, ips: set<string>, ip: string)
    requires UniqueKeys(db) && IsBestMac(db, best) && IsLatestArp(db, latest) && ip in ips
    ensures ShowsIp(FirstHalf(db, best, latest, macs, ips), ip) <==>
            exists m, a :: m in db.macs && a in latest && a.mac == Some(m.mac) && a.ip == ip
  {
    BestMacMeaning(db, best);
    if ShowsIp(FirstHalf(db, best, latest, macs, ips), ip) {
      var r :| r in FirstHalf(db, best, latest, macs, ips) && r.ip == Some(ip);
      var j := FirstHalfRow(db, best, latest, macs, ips, r);
      assert MacOf(j) in db.macs && ArpOf(j).value in latest;
    }
    if m, a :| m in db.macs && a in latest && a.mac == Some(m.mac) && a.ip == ip {
      var b :| b in best && b.mac == m.mac;
      var r := WantedRow(db, best, latest, macs, ips, b, a);
    }
  }

  /** An asked IP is in the second half exactly when the address on its newest ARP row is not in mac_table. */
  lemma IpInSecondHalfIff(db: Db, ips: set<string>, newest: set<ArpRow>, ip: string)
    ensures ShowsIp(SecondHalf(db, newest), ip) <==> exists a :: a in newest && a.ip == ip && Unseen(db, a)
  {
    if a :| a in newest && a.ip == ip && Unseen(db, a) {
      assert ArpOnly(a) in SecondHalf(db, newest) && ArpOnly(a).ip == Some(ip);
    }
  }

  /** The newest ARP row of its IP, with no row of the same IP as recent, and the same for its MAC. */
  ghost predicate Current(db: Db, a: ArpRow) {
    && a in db.arps && a.mac.Some?
    && (forall o :: o in db.arps && o != a && o.ip == a.ip ==> o.time < a.time)
    && (forall o :: o in db.arps && o != a && o.mac == a.mac ==> o.time < a.time)
  }

  /** mac_table spells the address in one way only. */
  ghost predicate OneSpelling(db: Db, mac: string) {
    forall m :: m in db.macs && Lower(m.mac) == Lower(mac) ==> m.mac == mac
  }

  /** What is known of the newest ARP rows: a row newer than all others of its group is the one selected. */
  lemma CurrentIsSelected(db: Db, latest: set<ArpRow>, newest: set<ArpRow>, ips: set<string>, a: ArpRow)
    requires IsLatestArp(db, latest) && IsNewestPerIp(db, ips, newest)
    requires a.ip in ips && Current(db, a)
    ensures a in latest && a in newest
  {
    assert a in Asked(db, ips);
    var n :| n in newest && n.ip == a.ip;
    assert n == a;
    var l :| l in latest && l.mac == a.mac;
    assert l == a;
  }

  /** An asked IP whose newest ARP row is also the newest one of its MAC is shown, whether or not the MAC is
      in mac_table, whatever ties the database breaks elsewhere. */
  lemma CurrentIpIsShown(db: Db, best: set<MacRow>, latest: set<ArpRow>, newest: set<ArpRow>,
                         macs: set<string>, ips: set<string>, a: ArpRow)
    requires UniqueKeys(db) && IsBestMac(db, best) && IsLatestArp(db, latest) && IsNewestPerIp(db, ips, newest)
    requires a.ip in ips && Current(db, a) && OneSpelling(db, a.mac.value)
    ensures ShowsIp(FirstHalf(db, best, latest, macs, ips) + SecondHalf(db, newest), a.ip)
  {
    var first, second := FirstHalf(db, best, latest, macs, ips), SecondHalf(db, newest);
    CurrentIsSelected(db, latest, newest, ips, a);
    if Unseen(db, a) {
      IpInSecondHalfIff(db, ips, newest, a.ip);
      var r :| r in second && r.ip == Some(a.ip);
      assert r in first + second;
    } else {
      IpInFirstHalfIff(db, best, latest, macs, ips, a.ip);
      var m :| m in db.macs && Lower(m.mac) == Lower(a.mac.value);
      assert a.mac == Some(m.mac);
      var r :| r in first && r.ip == Some(a.ip);
      assert r in first + second;
    }
  }

  /** With nothing asked, the answer is empty. */
  lemma NothingAskedNothingFound(db: Db, answer: set<Result>)
    requires IsAnswer(db, {}, {}, answer)
    ensures answer == {}
  {
    var best, latest, newest :|
      && IsBestMac(db, best) && IsLatestArp(db, latest) && IsNewestPerIp(db, {}, newest)
      && answer == FirstHalf(db, best, latest, {}, {}) + SecondHalf(db, newest);
    assert Asked(db, {}) == {};
  }
}
