/** interface_table and vlan_table with the statements of handleInterface and handleVlan written out column
    by column, and the proof that both are guarded registers. */
module GuardedTables {
  import opened Options
  import opened Statements
  import opened Register
  import opened GuardedLog

  function Coalesce<T>(a: Option<T>, b: Option<T>): Option<T> {
    if a.Some? then a else b
  }

  predicate FitsSmallint(n: int) { -0x8000 <= n < 0x8000 }

  predicate FitsInteger(n: int) { -0x8000_0000 <= n < 0x8000_0000 }

  // ---- interface_table -----------------------------------------------------------------------------------------

  /** An interface message as the consumer decodes it. */
  datatype IfEntry = IfEntry(
    time: int,
    nodeId: string,
    name: string,
    description: Option<string>,
    shutdown: Option<bool>,
    ipAddress: Option<string>,
    prefixLen: Option<int>,
    vrf: Option<string>,
    mtu: Option<int>,
    accessVlan: Option<int>,
    voiceVlan: Option<int>)

  datatype IfRow = IfRow(
    description: Option<string>,
    shutdown: bool,
    ipAddress: Option<string>,
    prefixLen: Option<int>,
    vrf: Option<string>,
    mtu: Option<int>,
    accessVlan: int,
    voiceVlan: Option<int>,
    collectedAt: int)

  type IfKey = (string, string)
  type IfTable = map<IfKey, IfRow>

  /** The statement fails when shutdown is NULL (the column is NOT NULL) or a number does not fit. */
  predicate IfAccepts(e: IfEntry) {
    && e.shutdown.Some?
    && (e.prefixLen.Some? ==> FitsSmallint(e.prefixLen.value))
    && (e.mtu.Some? ==> FitsInteger(e.mtu.value))
    && (e.accessVlan.Some? ==> FitsSmallint(e.accessVlan.value))
    && (e.voiceVlan.Some? ==> FitsSmallint(e.voiceVlan.value))
  }

  /** The VALUES row. */
  function IfInserted(e: IfEntry): IfRow
    requires IfAccepts(e)
  {
    IfRow(e.description, e.shutdown.value, e.ipAddress, e.prefixLen, e.vrf, e.mtu,
          if e.accessVlan.Some? then e.accessVlan.value else 1, e.voiceVlan, e.time)
  }

  /** The DO UPDATE SET row. */
  function IfUpdated(row: IfRow, e: IfEntry): IfRow
    requires IfAccepts(e)
  {
    var excluded := IfInserted(e);
    IfRow(
      Coalesce(excluded.description, row.description),
      excluded.shutdown,
      Coalesce(excluded.ipAddress, row.ipAddress),
      Coalesce(excluded.prefixLen, row.prefixLen),
      Coalesce(excluded.vrf, row.vrf),
      Coalesce(excluded.mtu, row.mtu),
      if e.accessVlan.Some? then e.accessVlan.value else row.accessVlan,
      Coalesce(e.voiceVlan, row.voiceVlan),
      excluded.collectedAt)
  }

  /** handleInterface: the table afterwards, and whether it returned without an error. A message that does
      not decode is None; `db` is what becomes of a statement the database can accept. */
  function HandleInterface(t: IfTable, body: Option<IfEntry>, db: Outcome): (IfTable, bool) {
    if body.None? || !IfAccepts(body.value) || db.Fails? then (t, false)
    else
      var e := body.value;
      var k := (e.nodeId, e.name);
      if k !in t then (t[k := IfInserted(e)], db.Commits?)
      else if e.time >= t[k].collectedAt then (t[k := IfUpdated(t[k], e)], db.Commits?)
      else (t, db.Commits?)
  }

  // ---- vlan_table ------------------------------------------------------------------------------------------------

  datatype VlanEntry = VlanEntry(time: int, nodeId: string, vlanId: int, name: Option<string>, status: string)

  datatype VlanRow = VlanRow(name: Option<string>, status: Option<string>, collectedAt: int)

  type VlanKey = (string, int)
  type VlanTable = map<VlanKey, VlanRow>

  function NullIfEmpty(s: string): Option<string> {
    if s == "" then None else Some(s)
  }

  function HandleVlan(t: VlanTable, body: Option<VlanEntry>, db: Outcome): (VlanTable, bool) {
    if body.None? || !FitsInteger(body.value.vlanId) || db.Fails? then (t, false)
    else
      var e := body.value;
      var k := (e.nodeId, e.vlanId);
      var excluded := VlanRow(e.name, NullIfEmpty(e.status), e.time);
      if k !in t then (t[k := excluded], db.Commits?)
      else if e.time >= t[k].collectedAt then
        (t[k := VlanRow(Coalesce(excluded.name, t[k].name), Coalesce(excluded.status, t[k].status), excluded.collectedAt)],
         db.Commits?)
      else (t, db.Commits?)
  }

  // ---- Both tables are guarded registers -----------------------------------------------------------------------

  datatype Column = Description | Shutdown | IpAddress | PrefixLen | Vrf | Mtu | AccessVlan | VoiceVlan | Name | Status

  datatype Cell = Text(text: string) | Number(number: int) | Flag(flag: bool)

  const COLUMNS: set<Column> :=
    {Description, Shutdown, IpAddress, PrefixLen, Vrf, Mtu, AccessVlan, VoiceVlan, Name, Status}

  lemma AllColumns(c: Column)
    ensures c in COLUMNS
  {
    match c
    case Description => case Shutdown => case IpAddress => case PrefixLen => case Vrf =>
    case Mtu => case AccessVlan => case VoiceVlan => case Name => case Status =>
  }

  function TextCell(s: Option<string>): Option<Cell> {
    if s.Some? then Some(Text(s.value)) else None
  }

  function NumberCell(n: Option<int>): Option<Cell> {
    if n.Some? then Some(Number(n.value)) else None
  }

  function Present(cell: Column -> Option<Cell>): (m: map<Column, Cell>)
    ensures forall c :: Get(m, c) == cell(c)
  {
    assert forall c: Column :: c in COLUMNS by {
      forall c: Column ensures c in COLUMNS { AllColumns(c); }
    }
    map c | c in COLUMNS && cell(c).Some? :: cell(c).value
  }

  function IfMsgCell(e: IfEntry, c: Column): Option<Cell> {
    match c
    case Description => TextCell(e.description)
    case Shutdown => if e.shutdown.Some? then Some(Flag(e.shutdown.value)) else None
    case IpAddress => TextCell(e.ipAddress)
    case PrefixLen => NumberCell(e.prefixLen)
    case Vrf => TextCell(e.vrf)
    case Mtu => NumberCell(e.mtu)
    case AccessVlan => NumberCell(e.accessVlan)
    case VoiceVlan => NumberCell(e.voiceVlan)
    case _ => None
  }

  function IfRowCell(r: IfRow, c: Column): Option<Cell> {
    IfMsgCell(IfEntry(0, "", "", r.description, Some(r.shutdown), r.ipAddress, r.prefixLen, r.vrf, r.mtu,
                      Some(r.accessVlan), r.voiceVlan), c)
  }

  const IF_DEFAULTS: map<Column, Cell> := map[AccessVlan := Number(1)]
  const VLAN_DEFAULTS: map<Column, Cell> := map[]

  function IfReg(r: IfRow): Reg<Column, Cell> {
    Reg(r.collectedAt, Present(c => IfRowCell(r, c)))
  }

  function IfItem(body: Option<IfEntry>): Item<IfKey, Column, Cell> {
    if body.None? || !IfAccepts(body.value) then Rejected
    else Item((body.value.nodeId, body.value.name), Msg(body.value.time, Present(c => IfMsgCell(body.value, c))))
  }

  function IfAbs(t: IfTable): Table<IfKey, Column, Cell> {
    map k | k in t :: IfReg(t[k])
  }

  function VlanMsgCell(name: Option<string>, status: Option<string>, c: Column): Option<Cell> {
    match c
    case Name => TextCell(name)
    case Status => TextCell(status)
    case _ => None
  }

  function VlanReg(r: VlanRow): Reg<Column, Cell> {
    Reg(r.collectedAt, Present(c => VlanMsgCell(r.name, r.status, c)))
  }

  function VlanItem(body: Option<VlanEntry>): Item<VlanKey, Column, Cell> {
    if body.None? || !FitsInteger(body.value.vlanId) then Rejected
    else
      var e := body.value;
      Item((e.nodeId, e.vlanId), Msg(e.time, Present(c => VlanMsgCell(e.name, NullIfEmpty(e.status), c))))
  }

  function VlanAbs(t: VlanTable): Table<VlanKey, Column, Cell> {
    map k | k in t :: VlanReg(t[k])
  }

  lemma OverlayAt(a: map<Column, Cell>, b: map<Column, Cell>, c: Column)
    ensures Get(a + b, c) == Coalesce(Get(b, c), Get(a, c))
  {
  }

  lemma IfInsertedCell(e: IfEntry, c: Column)
    requires IfAccepts(e)
    ensures IfRowCell(IfInserted(e), c) == Coalesce(IfMsgCell(e, c), Get(IF_DEFAULTS, c))
  {
    match c
    case Description => case Shutdown => case IpAddress => case PrefixLen => case Vrf =>
    case Mtu => case AccessVlan => case VoiceVlan => case Name => case Status =>
  }

  lemma IfInsertIsMerge(e: IfEntry)
    requires IfAccepts(e)
    ensures IfReg(IfInserted(e)) == Merge(IF_DEFAULTS, None, IfItem(Some(e)).msg)
  {
    var cols, after := IfItem(Some(e)).msg.cols, IfReg(IfInserted(e)).cols;
    forall c
      ensures Get(after, c) == Get(IF_DEFAULTS + cols, c)
    {
      OverlayAt(IF_DEFAULTS, cols, c);
      IfInsertedCell(e, c);
      assert Get(cols, c) == IfMsgCell(e, c);
    }
    MapsEqual(after, IF_DEFAULTS + cols);
  }

  lemma IfUpdatedCell(r: IfRow, e: IfEntry, c: Column)
    requires IfAccepts(e)
    ensures IfRowCell(IfUpdated(r, e), c) == Coalesce(IfMsgCell(e, c), IfRowCell(r, c))
  {
    match c
    case Description => case Shutdown => case IpAddress => case PrefixLen => case Vrf =>
    case Mtu => case AccessVlan => case VoiceVlan => case Name => case Status =>
  }

  lemma IfUpdateIsMerge(r: IfRow, e: IfEntry)
    requires IfAccepts(e) && e.time >= r.collectedAt
    ensures IfReg(IfUpdated(r, e)) == Merge(IF_DEFAULTS, Some(IfReg(r)), IfItem(Some(e)).msg)
  {
    var before, cols, after := IfReg(r).cols, IfItem(Some(e)).msg.cols, IfReg(IfUpdated(r, e)).cols;
    forall c
      ensures Get(after, c) == Get(before + cols, c)
    {
      OverlayAt(before, cols, c);
      IfUpdatedCell(r, e, c);
      assert Get(before, c) == IfRowCell(r, c);
      assert Get(cols, c) == IfMsgCell(e, c);
    }
    MapsEqual(after, before + cols);
  }

  lemma IfStatementIsMerge(t: IfTable, e: IfEntry, db: Outcome)
    requires IfAccepts(e) && !db.Fails?
    ensures var k := (e.nodeId, e.name);
            var t' := HandleInterface(t, Some(e), db).0;
            k in t' && IfReg(t'[k]) == Merge(IF_DEFAULTS, Get(IfAbs(t), k), IfItem(Some(e)).msg)
  {
    var k := (e.nodeId, e.name);
    if k !in t {
      IfInsertIsMerge(e);
    } else if e.time >= t[k].collectedAt {
      IfUpdateIsMerge(t[k], e);
    }
  }

  /** The interface statement, COALESCE by COALESCE, is the guarded register with access_vlan defaulting to
      1 on insert only, and reports success exactly when the register's step is acknowledged. */
  lemma InterfaceIsGuardedRegister(t: IfTable, body: Option<IfEntry>, db: Outcome)
    ensures IfAbs(HandleInterface(t, body, db).0) == Received(IF_DEFAULTS, IfAbs(t), IfItem(body), db)
    ensures HandleInterface(t, body, db).1 <==> Acknowledged(IfItem(body), db)
  {
    if body.Some? && IfAccepts(body.value) && !db.Fails? {
      IfStatementIsMerge(t, body.value, db);
      MapEq(IfAbs(HandleInterface(t, body, db).0), Apply(IF_DEFAULTS, IfAbs(t), IfItem(body)));
    }
  }

  lemma MapEq<K, V>(a: map<K, V>, b: map<K, V>)
    requires a.Keys == b.Keys
    requires forall k :: k in a ==> a[k] == b[k]
    ensures a == b
  {
  }

  function VlanInserted(e: VlanEntry): VlanRow {
    VlanRow(e.name, NullIfEmpty(e.status), e.time)
  }

  function VlanUpdated(r: VlanRow, e: VlanEntry): VlanRow {
    VlanRow(Coalesce(e.name, r.name), Coalesce(NullIfEmpty(e.status), r.status), e.time)
  }

  lemma VlanInsertIsMerge(e: VlanEntry)
    requires FitsInteger(e.vlanId)
    ensures VlanReg(VlanInserted(e)) == Merge(VLAN_DEFAULTS, None, VlanItem(Some(e)).msg)
  {
    var cols := VlanItem(Some(e)).msg.cols;
    MapsEqual(VlanReg(VlanInserted(e)).cols, VLAN_DEFAULTS + cols);
  }

  lemma VlanUpdateIsMerge(r: VlanRow, e: VlanEntry)
    requires FitsInteger(e.vlanId) && e.time >= r.collectedAt
    ensures VlanReg(VlanUpdated(r, e)) == Merge(VLAN_DEFAULTS, Some(VlanReg(r)), VlanItem(Some(e)).msg)
  {
    var before, cols, after := VlanReg(r).cols, VlanItem(Some(e)).msg.cols, VlanReg(VlanUpdated(r, e)).cols;
    forall c
      ensures Get(after, c) == Get(before + cols, c)
    {
      OverlayAt(before, cols, c);
    }
    MapsEqual(after, before + cols);
  }

  lemma VlanStatementIsMerge(t: VlanTable, e: VlanEntry)
    requires FitsInteger(e.vlanId)
    ensures var k := (e.nodeId, e.vlanId);
            var t' := HandleVlan(t, Some(e), Commits).0;
            k in t' && VlanReg(t'[k]) == Merge(VLAN_DEFAULTS, Get(VlanAbs(t), k), VlanItem(Some(e)).msg)
  {
    var k := (e.nodeId, e.vlanId);
    if k !in t {
      VlanInsertIsMerge(e);
    } else if e.time >= t[k].collectedAt {
      VlanUpdateIsMerge(t[k], e);
    }
  }

  /** The VLAN statement is the guarded register without insert defaults; an empty status counts as absent. */
  lemma VlanIsGuardedRegister(t: VlanTable, body: Option<VlanEntry>, db: Outcome)
    ensures VlanAbs(HandleVlan(t, body, db).0) == Received(VLAN_DEFAULTS, VlanAbs(t), VlanItem(body), db)
    ensures HandleVlan(t, body, db).1 <==> Acknowledged(VlanItem(body), db)
  {
    if body.Some? && FitsInteger(body.value.vlanId) && !db.Fails? {
      VlanStatementIsMerge(t, body.value);
      MapEq(VlanAbs(HandleVlan(t, body, db).0), Apply(VLAN_DEFAULTS, VlanAbs(t), VlanItem(body)));
    }
  }

  lemma IfRegIsInjective(a: IfRow, b: IfRow)
    requires IfReg(a) == IfReg(b)
    ensures a == b
  {
    forall c: Column
      ensures IfRowCell(a, c) == IfRowCell(b, c)
    {
      assert Get(IfReg(a).cols, c) == Get(IfReg(b).cols, c);
    }
    assert IfRowCell(a, Description) == IfRowCell(b, Description);
    assert IfRowCell(a, Shutdown) == IfRowCell(b, Shutdown);
    assert IfRowCell(a, IpAddress) == IfRowCell(b, IpAddress);
    assert IfRowCell(a, PrefixLen) == IfRowCell(b, PrefixLen);
    assert IfRowCell(a, Vrf) == IfRowCell(b, Vrf);
    assert IfRowCell(a, Mtu) == IfRowCell(b, Mtu);
    assert IfRowCell(a, AccessVlan) == IfRowCell(b, AccessVlan);
    assert IfRowCell(a, VoiceVlan) == IfRowCell(b, VoiceVlan);
  }

  lemma VlanRegIsInjective(a: VlanRow, b: VlanRow)
    requires VlanReg(a) == VlanReg(b)
    ensures a == b
  {
    assert Get(VlanReg(a).cols, Name) == Get(VlanReg(b).cols, Name);
    assert Get(VlanReg(a).cols, Status) == Get(VlanReg(b).cols, Status);
  }

  // ---- Exactly what is refused -----------------------------------------------------------------------------------

  ghost predicate Fits(n: Option<int>, low: int, high: int) {
    n.Some? ==> low <= n.value <= high
  }

  /** A decoded interface message is handled without an error exactly when the database commits and is seen to,
      shutdown is there, and each number fits its column: smallint for the prefix length and the VLANs,
      integer for the MTU. */
  lemma InterfaceHandledIff(t: IfTable, e: IfEntry, db: Outcome)
    ensures HandleInterface(t, Some(e), db).1 <==>
            && db.Commits? && e.shutdown.Some? && Fits(e.prefixLen, -32768, 32767) && Fits(e.mtu, -2147483648, 2147483647)
            && Fits(e.accessVlan, -32768, 32767) && Fits(e.voiceVlan, -32768, 32767)
    ensures !HandleInterface(t, Some(e), db).1 && !db.CommitsUnseen? ==> HandleInterface(t, Some(e), db).0 == t
  {
  }

  lemma VlanHandledIff(t: VlanTable, e: VlanEntry, db: Outcome)
    ensures HandleVlan(t, Some(e), db).1 <==> db.Commits? && -2147483648 <= e.vlanId <= 2147483647
    ensures !HandleVlan(t, Some(e), db).1 && !db.CommitsUnseen? ==> HandleVlan(t, Some(e), db).0 == t
  {
  }

  // ---- Whole deliveries --------------------------------------------------------------------------------------------

  function HandleInterfaces(t: IfTable, log: seq<Option<IfEntry>>): IfTable {
    if log == [] then t else HandleInterface(HandleInterfaces(t, log[..|log| - 1]), log[|log| - 1], Commits).0
  }

  function HandleVlans(t: VlanTable, log: seq<Option<VlanEntry>>): VlanTable {
    if log == [] then t else HandleVlan(HandleVlans(t, log[..|log| - 1]), log[|log| - 1], Commits).0
  }

  function IfItems(log: seq<Option<IfEntry>>): seq<Item<IfKey, Column, Cell>> {
    seq(|log|, i requires 0 <= i < |log| => IfItem(log[i]))
  }

  function VlanItems(log: seq<Option<VlanEntry>>): seq<Item<VlanKey, Column, Cell>> {
    seq(|log|, i requires 0 <= i < |log| => VlanItem(log[i]))
  }

  lemma {:induction false} InterfacesRefine(t: IfTable, log: seq<Option<IfEntry>>)
    ensures IfAbs(HandleInterfaces(t, log)) == ApplyAll(IF_DEFAULTS, IfAbs(t), IfItems(log))
  {
    if log != [] {
      InterfacesRefine(t, log[..|log| - 1]);
      InterfaceIsGuardedRegister(HandleInterfaces(t, log[..|log| - 1]), log[|log| - 1], Commits);
      assert IfItems(log)[..|log| - 1] == IfItems(log[..|log| - 1]);
    }
  }

  lemma {:induction false} VlansRefine(t: VlanTable, log: seq<Option<VlanEntry>>)
    ensures VlanAbs(HandleVlans(t, log)) == ApplyAll(VLAN_DEFAULTS, VlanAbs(t), VlanItems(log))
  {
    if log != [] {
      VlansRefine(t, log[..|log| - 1]);
      VlanIsGuardedRegister(HandleVlans(t, log[..|log| - 1]), log[|log| - 1], Commits);
      assert VlanItems(log)[..|log| - 1] == VlanItems(log[..|log| - 1]);
    }
  }

  lemma IfAbsIsInjective(a: IfTable, b: IfTable)
    requires IfAbs(a) == IfAbs(b)
    ensures a == b
  {
    assert a.Keys == IfAbs(a).Keys == IfAbs(b).Keys == b.Keys;
    forall k | k in a
      ensures a[k] == b[k]
    {
      assert IfAbs(a)[k] == IfAbs(b)[k];
      IfRegIsInjective(a[k], b[k]);
    }
  }

  lemma VlanAbsIsInjective(a: VlanTable, b: VlanTable)
    requires VlanAbs(a) == VlanAbs(b)
    ensures a == b
  {
    assert a.Keys == VlanAbs(a).Keys == VlanAbs(b).Keys == b.Keys;
    forall k | k in a
      ensures a[k] == b[k]
    {
      assert VlanAbs(a)[k] == VlanAbs(b)[k];
      VlanRegIsInjective(a[k], b[k]);
    }
  }

  /** Redelivering any suffix of an interface log, malformed and refused messages included, changes no row
      and no column of interface_table. */
  lemma InterfaceRedelivery(t: IfTable, log: seq<Option<IfEntry>>, from: nat)
    requires from <= |log|
    ensures HandleInterfaces(HandleInterfaces(t, log), log[from..]) == HandleInterfaces(t, log)
  {
    var done := HandleInterfaces(t, log);
    InterfacesRefine(t, log);
    InterfacesRefine(done, log[from..]);
    assert IfItems(log)[from..] == IfItems(log[from..]);
    RedeliveryLeavesTable(IF_DEFAULTS, IfAbs(t), IfItems(log), from);
    IfAbsIsInjective(HandleInterfaces(done, log[from..]), done);
  }

  lemma VlanRedelivery(t: VlanTable, log: seq<Option<VlanEntry>>, from: nat)
    requires from <= |log|
    ensures HandleVlans(HandleVlans(t, log), log[from..]) == HandleVlans(t, log)
  {
    var done := HandleVlans(t, log);
    VlansRefine(t, log);
    VlansRefine(done, log[from..]);
    assert VlanItems(log)[from..] == VlanItems(log[from..]);
    RedeliveryLeavesTable(VLAN_DEFAULTS, VlanAbs(t), VlanItems(log), from);
    VlanAbsIsInjective(HandleVlans(done, log[from..]), done);
  }

  // ---- Whole runs --------------------------------------------------------------------------------------------------

  /** interface_table over a run: each message received goes through handleInterface, a restart leaves the table alone. */
  ghost predicate InterfaceTables(log: seq<Option<IfEntry>>, states: seq<State<IfKey, Column, Cell>>, steps: seq<Step>,
                                  tables: seq<IfTable>)
    requires |states| == |steps| + 1
  {
    && |tables| == |steps| + 1
    && forall i :: 0 <= i < |steps| ==>
                     match steps[i]
                     case Receive(db) => states[i].pos < |log| && tables[i + 1] == HandleInterface(tables[i], log[states[i].pos], db).0
                     case Restart(_) => tables[i + 1] == tables[i]
  }

  lemma {:induction false} InterfaceTablesFollow(
    log: seq<Option<IfEntry>>, states: seq<State<IfKey, Column, Cell>>, steps: seq<Step>, tables: seq<IfTable>, n: nat)
    requires |states| == |steps| + 1 && n <= |steps|
    requires IsRunFrom(IF_DEFAULTS, IfItems(log), states[0], states, steps)
    requires InterfaceTables(log, states, steps, tables) && states[0] == Start(IfAbs(tables[0]))
    ensures states[n].table == IfAbs(tables[n])
  {
    if n > 0 {
      InterfaceTablesFollow(log, states, steps, tables, n - 1);
      assert states[n] == Next(IF_DEFAULTS, IfItems(log), states[n - 1], steps[n - 1]);
      match steps[n - 1]
      case Receive(db) => InterfaceIsGuardedRegister(tables[n - 1], log[states[n - 1].pos], db);
      case Restart(_) =>
    }
  }

  /** interface_table recovers: over every run in which nothing is handled between a database error and the next
      restart, once re-read without an error it is the table of one clean delivery, column by column. */
  lemma InterfaceTableRecovers(
    log: seq<Option<IfEntry>>, states: seq<State<IfKey, Column, Cell>>, steps: seq<Step>, tables: seq<IfTable>)
    requires |states| == |steps| + 1
    requires IsRunFrom(IF_DEFAULTS, IfItems(log), states[0], states, steps)
    requires InterfaceTables(log, states, steps, tables) && states[0] == Start(IfAbs(tables[0]))
    requires ErrorsEndSessions(IfItems(log), states, steps) && !Stopped(IfItems(log), states, steps, |steps|)
    requires states[|steps|].pos == states[|steps|].high
    ensures states[|steps|].high <= |log|
    ensures tables[|steps|] == HandleInterfaces(tables[0], log[..states[|steps|].high])
  {
    var high := states[|steps|].high;
    InterfaceTablesFollow(log, states, steps, tables, |steps|);
    GuardedRecovery(IF_DEFAULTS, IfItems(log), IfAbs(tables[0]), states, steps);
    InterfacesRefine(tables[0], log[..high]);
    assert IfItems(log)[..high] == IfItems(log[..high]);
    IfAbsIsInjective(tables[|steps|], HandleInterfaces(tables[0], log[..high]));
  }

  /** vlan_table over a run: each message received goes through handleVlan, a restart leaves the table alone. */
  ghost predicate VlanTables(log: seq<Option<VlanEntry>>, states: seq<State<VlanKey, Column, Cell>>, steps: seq<Step>,
                                  tables: seq<VlanTable>)
    requires |states| == |steps| + 1
  {
    && |tables| == |steps| + 1
    && forall i :: 0 <= i < |steps| ==>
                     match steps[i]
                     case Receive(db) => states[i].pos < |log| && tables[i + 1] == HandleVlan(tables[i], log[states[i].pos], db).0
                     case Restart(_) => tables[i + 1] == tables[i]
  }

  lemma {:induction false} VlanTablesFollow(
    log: seq<Option<VlanEntry>>, states: seq<State<VlanKey, Column, Cell>>, steps: seq<Step>, tables: seq<VlanTable>, n: nat)
    requires |states| == |steps| + 1 && n <= |steps|
    requires IsRunFrom(VLAN_DEFAULTS, VlanItems(log), states[0], states, steps)
    requires VlanTables(log, states, steps, tables) && states[0] == Start(VlanAbs(tables[0]))
    ensures states[n].table == VlanAbs(tables[n])
  {
    if n > 0 {
      VlanTablesFollow(log, states, steps, tables, n - 1);
      assert states[n] == Next(VLAN_DEFAULTS, VlanItems(log), states[n - 1], steps[n - 1]);
      match steps[n - 1]
      case Receive(db) => VlanIsGuardedRegister(tables[n - 1], log[states[n - 1].pos], db);
      case Restart(_) =>
    }
  }

  /** vlan_table recovers: over every run in which nothing is handled between a database error and the next
      restart, once re-read without an error it is the table of one clean delivery, column by column. */
  lemma VlanTableRecovers(
    log: seq<Option<VlanEntry>>, states: seq<State<VlanKey, Column, Cell>>, steps: seq<Step>, tables: seq<VlanTable>)
    requires |states| == |steps| + 1
    requires IsRunFrom(VLAN_DEFAULTS, VlanItems(log), states[0], states, steps)
    requires VlanTables(log, states, steps, tables) && states[0] == Start(VlanAbs(tables[0]))
    requires ErrorsEndSessions(VlanItems(log), states, steps) && !Stopped(VlanItems(log), states, steps, |steps|)
    requires states[|steps|].pos == states[|steps|].high
    ensures states[|steps|].high <= |log|
    ensures tables[|steps|] == HandleVlans(tables[0], log[..states[|steps|].high])
  {
    var high := states[|steps|].high;
    VlanTablesFollow(log, states, steps, tables, |steps|);
    GuardedRecovery(VLAN_DEFAULTS, VlanItems(log), VlanAbs(tables[0]), states, steps);
    VlansRefine(tables[0], log[..high]);
    assert VlanItems(log)[..high] == VlanItems(log[..high]);
    VlanAbsIsInjective(tables[|steps|], HandleVlans(tables[0], log[..high]));
  }

  // ---- Two concrete inputs ---------------------------------------------------------------------------------------

  /** Two messages for one interface whose order matters: the newer one carries no description, so it shuts
      the older one's out when it comes first. */
  lemma ArrivalOrderMatters()
    ensures var older := Some(IfEntry(1, "n", "Vlan1", Some("d"), Some(false), None, None, None, None, None, None));
            var newer := Some(IfEntry(2, "n", "Vlan1", None, Some(false), None, None, None, None, None, None));
            var k := ("n", "Vlan1");
            var sent, swapped := HandleInterfaces(map[], [older, newer]), HandleInterfaces(map[], [newer, older]);
            && k in sent && sent[k].description == Some("d")
            && k in swapped && swapped[k].description == None
  {
    var older := Some(IfEntry(1, "n", "Vlan1", Some("d"), Some(false), None, None, None, None, None, None));
    var newer := Some(IfEntry(2, "n", "Vlan1", None, Some(false), None, None, None, None, None, None));
    InTurn(map[], older, newer);
    InTurn(map[], newer, older);
  }

  lemma InTurn(t: IfTable, a: Option<IfEntry>, b: Option<IfEntry>)
    ensures HandleInterfaces(t, [a, b]) == HandleInterface(HandleInterface(t, a, Commits).0, b, Commits).0
  {
    var log := [a, b];
    assert log[..1] == [a] && log[..1][..0] == [];
    assert HandleInterfaces(t, log[..1]) == HandleInterface(t, a, Commits).0;
  }

  /** An entry without shutdown is refused even where the row exists and has one, description and all. */
  lemma MissingShutdownIsRefused()
    ensures var row := IfRow(None, false, None, None, None, None, 1, None, 1);
            var t: IfTable := map[("n", "Vlan1") := row];
            var e := IfEntry(2, "n", "Vlan1", Some("d"), None, None, None, None, None, None, None);
            HandleInterface(t, Some(e), Commits) == (t, false)
  {
  }
}
