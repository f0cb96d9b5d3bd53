/** From the device tree to the table row: extraction, encoding, decoding and the SQL merge composed. */
module EndToEnd {
  import opened Options
  import opened Statements
  import opened Telemetry
  import opened Extract
  import opened TreeReading
  import opened VlanExtract
  import opened Wire
  import G = GuardedTables

  /** The numbers the statement can store. */
  predicate Storable(e: Extract.IfEntry) {
    && (e.accessVlan.Some? ==> e.accessVlan.value < 0x8000)
    && (e.voiceVlan.Some? ==> e.voiceVlan.value < 0x8000)
    && e.mtu < 0x8000_0000
  }

  /** What becomes of an entry while the database works: the collector does not publish it, the consumer gets
      an error, or it is handled. */
  datatype Delivery = Skipped | Refused | Handled

  function Handling(ok: bool): Delivery {
    if ok then Handled else Refused
  }

  /** An interface entry from the collector's loop to the table. */
  function Deliver(t: G.IfTable, time: int, nodeId: string, e: Extract.IfEntry): (G.IfTable, Delivery) {
    if e.name == "" then (t, Skipped)
    else
      var (t', ok) := G.HandleInterface(t, DecodeInterface(EncodeInterface(time, nodeId, e)), Commits);
      (t', Handling(ok))
  }

  /** The row an entry is laid over: the stored one, or one that says nothing but the default VLAN. */
  function RowBefore(t: G.IfTable, k: G.IfKey): G.IfRow {
    if k in t then t[k] else G.IfRow(None, false, None, None, None, None, 1, None, 0)
  }

  /** What the entry carries, and what the row had where it carries nothing. */
  function Merged(before: G.IfRow, time: int, e: Extract.IfEntry): G.IfRow {
    G.IfRow(Or(e.description, before.description), e.shutdown, Or(e.ipAddress, before.ipAddress),
            Or(e.prefixLen, before.prefixLen), if e.vrf == "" then before.vrf else Some(e.vrf),
            if e.mtu == 0 then before.mtu else Some(e.mtu), Default(e.accessVlan, before.accessVlan),
            Or(e.voiceVlan, before.voiceVlan), time)
  }

  predicate Stale(t: G.IfTable, k: G.IfKey, time: int) {
    k in t && time < t[k].collectedAt
  }

  lemma HandledInterface(t: G.IfTable, time: int, nodeId: string, e: Extract.IfEntry)
    requires InRange(e)
    ensures var (t', ok) := G.HandleInterface(t, Some(Received(time, nodeId, e)), Commits);
            var k := (nodeId, e.name);
            && (ok <==> Storable(e))
            && t' == if !ok || Stale(t, k, time) then t else t[k := Merged(RowBefore(t, k), time, e)]
  {
    var r, k := Received(time, nodeId, e), (nodeId, e.name);
    assert G.IfAccepts(r) <==> Storable(e);
    if Storable(e) {
      if k in t {
        assert G.IfUpdated(t[k], r) == Merged(t[k], time, e);
      } else {
        assert G.IfInserted(r) == Merged(RowBefore(t, k), time, e);
      }
    }
  }

  /** Every case of a delivery: an entry without a name is not published, a published one is refused exactly
      when one of its numbers cannot be stored, and of the handled ones a stale one changes nothing while any
      other is laid over its own row, or over a blank one, and no other row changes. */
  lemma DeliveredInterface(t: G.IfTable, time: int, nodeId: string, e: Extract.IfEntry)
    requires InRange(e)
    ensures var (t', d) := Deliver(t, time, nodeId, e);
            var k := (nodeId, e.name);
            && d == (if e.name == "" then Skipped else if Storable(e) then Handled else Refused)
            && t' == if !d.Handled? || Stale(t, k, time) then t else t[k := Merged(RowBefore(t, k), time, e)]
  {
    InterfaceRoundTrip(time, nodeId, e);
    HandledInterface(t, time, nodeId, e);
  }

  // ---- Interfaces: what the tree makes of the row --------------------------------------------------------------

  /** Every column of the row, from the tree: set where a field leads to a value, the empty value included, and
      kept where none does. An empty VRF and MTU 0 keep the column; shutdown is always set. */
  ghost predicate RowFollowsTree(maskLen: string -> PrefixLen, fs: seq<Field>, before: G.IfRow, after: G.IfRow) {
    && TextFlows(fs, "description", [], before.description, after.description)
    && (after.shutdown <==> exists f :: f in fs && f.name == "shutdown" && !IsIface(f))
    && TextFlows(fs, "ip", ["address", "primary", "address"], before.ipAddress, after.ipAddress)
    && MaskFlows(maskLen, fs, before.prefixLen, after.prefixLen)
    && VrfFlows(fs, before.vrf, after.vrf)
    && MtuFlows(fs, before.mtu, after.mtu)
    && SwitchportFlows(fs, ["access", "vlan", "vlan"], Some(before.accessVlan), Some(after.accessVlan))
    && SwitchportFlows(fs, ["voice", "vlan", "vlan"], before.voiceVlan, after.voiceVlan)
  }

  lemma TextOverRow(fs: seq<Field>, name: string, path: seq<string>, x: Option<string>, before: Option<string>)
    requires TextFlows(fs, name, path, None, x)
    ensures TextFlows(fs, name, path, before, Or(x, before))
  {
  }

  lemma VlanOverRow(fs: seq<Field>, path: seq<string>, x: Option<int>, before: Option<int>)
    requires SwitchportFlows(fs, path, None, x)
    ensures SwitchportFlows(fs, path, before, Or(x, before))
  {
  }

  lemma MaskOverRow(maskLen: string -> PrefixLen, fs: seq<Field>, x: Option<int>, before: Option<int>)
    requires MaskFlows(maskLen, fs, None, x)
    ensures MaskFlows(maskLen, fs, before, Or(x, before))
  {
  }

  lemma VrfOverRow(fs: seq<Field>, vrf: string, before: Option<string>)
    requires VrfFlows(fs, None, if vrf == "" then None else Some(vrf))
    ensures VrfFlows(fs, before, if vrf == "" then before else Some(vrf))
  {
  }

  lemma MtuOverRow(fs: seq<Field>, mtu: int, before: Option<int>)
    requires MtuFlows(fs, None, if mtu == 0 then None else Some(mtu))
    ensures MtuFlows(fs, before, if mtu == 0 then before else Some(mtu))
  {
  }

  lemma MergedFollowsTree(maskLen: string -> PrefixLen, ifType: string, fs: seq<Field>, before: G.IfRow, time: int,
                          e: Extract.IfEntry)
    requires EntryFollowsTree(ifType, maskLen, fs, e)
    ensures RowFollowsTree(maskLen, fs, before, Merged(before, time, e))
  {
    TextOverRow(fs, "description", [], e.description, before.description);
    TextOverRow(fs, "ip", ["address", "primary", "address"], e.ipAddress, before.ipAddress);
    MaskOverRow(maskLen, fs, e.prefixLen, before.prefixLen);
    VrfOverRow(fs, e.vrf, before.vrf);
    MtuOverRow(fs, e.mtu, before.mtu);
    VlanOverRow(fs, ["access", "vlan", "vlan"], e.accessVlan, Some(before.accessVlan));
    VlanOverRow(fs, ["voice", "vlan", "vlan"], e.voiceVlan, before.voiceVlan);
  }

  /** The VLAN numbers that the tree leads to have at most 12 bits. */
  ghost predicate SmallVlan(fs: seq<Field>, path: seq<string>) {
    && (forall g, n :: LastLeads(fs, "switchport-config", ["switchport"] + path, g) && SaysNumber(g, n) ==> n < 4096)
    && (forall g, n :: FirstLeads(fs, "switchport", path, g) && SaysNumber(g, n) ==> n < 4096)
  }

  lemma SmallVlanIsStorable(fs: seq<Field>, path: seq<string>, vlan: Option<int>)
    requires SmallVlan(fs, path) && SwitchportFlows(fs, path, None, vlan)
    ensures vlan.Some? ==> vlan.value < 4096
  {
    if !AllSilent(fs, "switchport-config", ["switchport"] + path) {
      var g := SomebodyIsLast(fs, "switchport-config", ["switchport"] + path);
      GettersMeaning(g);
      assert SaysNumber(g, GetUint32(g));
    } else if !AllSilent(fs, "switchport", path) {
      var g := SomebodyIsFirst(fs, "switchport", path);
      GettersMeaning(g);
      assert SaysNumber(g, GetUint32(g));
    }
  }

  // ---- The main results ------------------------------------------------------------------------------------------

  /** The row of k, blank if there was none, follows the tree, and every other row is as it was. */
  ghost predicate TreeReachesRow(maskLen: string -> PrefixLen, fs: seq<Field>, t: G.IfTable, t': G.IfTable, k: G.IfKey) {
    && t'.Keys == t.Keys + {k}
    && (forall o :: o in t && o != k ==> t'[o] == t[o])
    && RowFollowsTree(maskLen, fs, RowBefore(t, k), t'[k])
  }

  lemma LaidOverReachesRow(maskLen: string -> PrefixLen, fs: seq<Field>, t: G.IfTable, k: G.IfKey, after: G.IfRow)
    requires RowFollowsTree(maskLen, fs, RowBefore(t, k), after)
    ensures TreeReachesRow(maskLen, fs, t, t[k := after], k)
  {
  }

  lemma MergedReachesRow(maskLen: string -> PrefixLen, iface: Field, t: G.IfTable, k: G.IfKey, time: int)
    ensures TreeReachesRow(maskLen, iface.fields, t,
                           t[k := Merged(RowBefore(t, k), time, EntryOf(iface.name, maskLen, iface.fields))], k)
  {
    var e := EntryOf(iface.name, maskLen, iface.fields);
    EntryFollows(iface.name, maskLen, iface.fields);
    MergedFollowsTree(maskLen, iface.name, iface.fields, RowBefore(t, k), time, e);
    LaidOverReachesRow(maskLen, iface.fields, t, k, Merged(RowBefore(t, k), time, e));
  }

  lemma SmallVlansAreStorable(iface: Field, maskLen: string -> PrefixLen)
    requires SmallVlan(iface.fields, ["access", "vlan", "vlan"]) && SmallVlan(iface.fields, ["voice", "vlan", "vlan"])
    ensures var e := EntryOf(iface.name, maskLen, iface.fields); Storable(e) <==> e.mtu < 0x8000_0000
  {
    var e := EntryOf(iface.name, maskLen, iface.fields);
    EntryFollows(iface.name, maskLen, iface.fields);
    SmallVlanIsStorable(iface.fields, ["access", "vlan", "vlan"], e.accessVlan);
    SmallVlanIsStorable(iface.fields, ["voice", "vlan", "vlan"], e.voiceVlan);
  }

  lemma NamelessIff(iface: Field, maskLen: string -> PrefixLen)
    ensures var name := EntryOf(iface.name, maskLen, iface.fields).name;
            && IsNameOf(iface.name, iface.fields, name)
            && (name == "" <==> AllSilent(iface.fields, "name", []))
  {
    EntryFollows(iface.name, maskLen, iface.fields);
    UnpublishedIff(iface.name, maskLen, iface.fields);
    forall f | f in iface.fields
      ensures Is(f, "name") <==> !IsSilent(f, "name", [])
    {
      assert Is(f, "name") ==> Leads(f, "name", [], f);
    }
  }

  /** Main result for interfaces, whatever the node, the message and the table: a node without an exact name
      field is skipped, a message whose numbers do not fit is refused, a stale one changes nothing; and in all
      other cases every column of the row named by the tree follows the tree, through extraction, encoding and
      merge, and no other row changes. */
  lemma InterfaceThreeStates(maskLen: string -> PrefixLen, iface: Field, time: int, nodeId: string, t: G.IfTable,
                             e: Extract.IfEntry, k: G.IfKey)
    requires e == EntryOf(iface.name, maskLen, iface.fields) && k == (nodeId, e.name)
    ensures IsNameOf(iface.name, iface.fields, k.1)
    ensures var (t', d) := Deliver(t, time, nodeId, e);
            && (d.Skipped? <==> AllSilent(iface.fields, "name", []))
            && (d.Refused? <==> !d.Skipped? && !Storable(e))
            && (if !d.Handled? || Stale(t, k, time) then t' == t
                else TreeReachesRow(maskLen, iface.fields, t, t', k) && t'[k].collectedAt == time)
    ensures SmallVlan(iface.fields, ["access", "vlan", "vlan"]) && SmallVlan(iface.fields, ["voice", "vlan", "vlan"]) ==>
              (Storable(e) <==> e.mtu < 0x8000_0000)
  {
    EntryInRange(iface.name, maskLen, iface.fields);
    NamelessIff(iface, maskLen);
    DeliveredInterface(t, time, nodeId, e);
    MergedReachesRow(maskLen, iface, t, k, time);
    if SmallVlan(iface.fields, ["access", "vlan", "vlan"]) && SmallVlan(iface.fields, ["voice", "vlan", "vlan"]) {
      SmallVlansAreStorable(iface, maskLen);
    }
  }

  /** A VLAN entry from the collector's loop to the table. */
  function DeliverVlan(t: G.VlanTable, time: int, nodeId: string, e: VlanExtract.VlanEntry): (G.VlanTable, Delivery) {
    if e.vlanId == 0 then (t, Skipped)
    else
      var (t', ok) := G.HandleVlan(t, DecodeVlan(EncodeVlan(time, nodeId, e)), Commits);
      (t', Handling(ok))
  }

  predicate StaleVlan(t: G.VlanTable, k: G.VlanKey, time: int) {
    k in t && time < t[k].collectedAt
  }

  function VlanRowBefore(t: G.VlanTable, k: G.VlanKey): G.VlanRow {
    if k in t then t[k] else G.VlanRow(None, None, 0)
  }

  function MergedVlan(before: G.VlanRow, time: int, e: VlanExtract.VlanEntry): G.VlanRow {
    G.VlanRow(Or(e.name, before.name), if e.status == "" then before.status else Some(e.status), time)
  }

  /** The same cases for VLANs: id 0 is not published, an id beyond 31 bits is refused. */
  lemma DeliveredVlan(t: G.VlanTable, time: int, nodeId: string, e: VlanExtract.VlanEntry)
    ensures var (t', d) := DeliverVlan(t, time, nodeId, e);
            var k := (nodeId, e.vlanId);
            && d == (if e.vlanId == 0 then Skipped else if e.vlanId < 0x8000_0000 then Handled else Refused)
            && t' == if !d.Handled? || StaleVlan(t, k, time) then t
                     else t[k := MergedVlan(VlanRowBefore(t, k), time, e)]
  {
    VlanRoundTrip(time, nodeId, e);
  }

  /** The VLAN's row, blank if there was none, follows the tree, and every other row is as it was. */
  ghost predicate TreeReachesVlanRow(row: seq<Field>, t: G.VlanTable, t': G.VlanTable, k: G.VlanKey) {
    && t'.Keys == t.Keys + {k}
    && (forall o :: o in t && o != k ==> t'[o] == t[o])
    && VlanNameFlows(row, VlanRowBefore(t, k).name, t'[k].name)
    && StatusFlows(row, VlanRowBefore(t, k).status, t'[k].status)
  }

  lemma MergedVlanFollows(row: seq<Field>, e: VlanExtract.VlanEntry, before: G.VlanRow, time: int)
    requires VlanFollowsTree(row, e)
    ensures VlanNameFlows(row, before.name, MergedVlan(before, time, e).name)
    ensures StatusFlows(row, before.status, MergedVlan(before, time, e).status)
  {
  }

  lemma MergedReachesVlanRow(row: seq<Field>, t: G.VlanTable, k: G.VlanKey, time: int)
    requires AtMostOne(row, "keys") && AtMostOne(row, "content")
    ensures IsIdOf(row, VlanEntryOf(row).vlanId)
    ensures TreeReachesVlanRow(row, t, t[k := MergedVlan(VlanRowBefore(t, k), time, VlanEntryOf(row))], k)
  {
    VlanFollows(row);
    MergedVlanFollows(row, VlanEntryOf(row), VlanRowBefore(t, k), time);
  }

  /** Main result for VLANs, whatever the message and the table: a row without an id is skipped, an id beyond 31
      bits refused, a stale message changes nothing; and in all other cases an absent name keeps the stored
      name, a name under content, or failing that under content/state, sets it, the empty name included, a
      status has to be non-empty to count, and no other row changes. */
  lemma VlanThreeStates(row: seq<Field>, time: int, nodeId: string, t: G.VlanTable, e: VlanExtract.VlanEntry, k: G.VlanKey)
    requires AtMostOne(row, "keys") && AtMostOne(row, "content")
    requires e == VlanEntryOf(row) && k == (nodeId, e.vlanId)
    ensures IsIdOf(row, k.1)
    ensures var (t', d) := DeliverVlan(t, time, nodeId, e);
            && (d.Skipped? <==> k.1 == 0)
            && (d.Refused? <==> k.1 >= 0x8000_0000)
            && (if !d.Handled? || StaleVlan(t, k, time) then t' == t
                else TreeReachesVlanRow(row, t, t', k) && t'[k].collectedAt == time)
  {
    DeliveredVlan(t, time, nodeId, e);
    MergedReachesVlanRow(row, t, k, time);
  }
}
