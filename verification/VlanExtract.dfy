/** publishVlan: the loop over a row's containers and what it reads. */
module VlanExtract {
  import opened Options
  import opened Telemetry
  import opened Readings
  import opened Extract
  import opened TreeReading

  datatype VlanEntry = VlanEntry(vlanId: UInt32, name: Option<string>, status: string)

  function Number(f: Option<Field>): Option<UInt32> {
    if f.Some? then Some(GetUint32(f.value)) else None
  }

  /** "id" in one YANG model, "vlan-id" in the other. */
  function ReadVlanId(c: Field): Option<UInt32> {
    if c.name != "keys" then None
    else Or(Number(FindNested(c.fields, ["id"])), Number(FindNested(c.fields, ["vlan-id"])))
  }

  function ReadDirectName(c: Field): Option<string> {
    if c.name == "content" then Text(FindNested(c.fields, ["name"])) else None
  }

  function ReadStateName(c: Field): Option<string> {
    if c.name == "content" then Text(FindNested(c.fields, ["state", "name"])) else None
  }

  function ReadDirectStatus(c: Field): Option<string> {
    if c.name == "content" then Text(FindNested(c.fields, ["status"])) else None
  }

  function ReadStateStatus(c: Field): Option<string> {
    if c.name == "content" then Text(FindNested(c.fields, ["state", "status"])) else None
  }

  /** The status is a plain string, so "still empty" is what sends the loop to the state container. */
  function NextStatus(status: string, c: Field): string {
    var direct := Default(ReadDirectStatus(c), status);
    if direct == "" then Default(ReadStateStatus(c), "") else direct
  }

  function StatusOf(cs: seq<Field>): string {
    if cs == [] then "" else NextStatus(StatusOf(cs[..|cs| - 1]), cs[|cs| - 1])
  }

  function VlanEntryOf(cs: seq<Field>): VlanEntry {
    VlanEntry(
      Default(LastSome(cs, ReadVlanId), 0),
      Or(LastSome(cs, ReadDirectName), FirstSome(cs, ReadStateName)),
      StatusOf(cs))
  }

  function VlanOverlay(e: VlanEntry, c: Field): VlanEntry {
    VlanEntry(
      Default(ReadVlanId(c), e.vlanId),
      Or(ReadDirectName(c), Or(e.name, ReadStateName(c))),
      NextStatus(e.status, c))
  }

  lemma VlanEntrySnoc(cs: seq<Field>, c: Field)
    ensures VlanEntryOf(cs + [c]) == VlanOverlay(VlanEntryOf(cs), c)
  {
    SnocReads(cs, c, ReadVlanId);
    SnocReads(cs, c, ReadDirectName);
    SnocReads(cs, c, ReadStateName);
    assert (cs + [c])[..|cs + [c]| - 1] == cs;
  }

  method ApplyKeys(entry: VlanEntry, fields: seq<Field>) returns (e: VlanEntry)
    ensures e == VlanOverlay(entry, Field("keys", NoValue, fields))
  {
    e := entry;
    var id := FindNestedField(fields, ["id"]);
    if id.Some? {
      e := e.(vlanId := GetUint32(id.value));
    } else {
      var vlanId := FindNestedField(fields, ["vlan-id"]);
      if vlanId.Some? {
        e := e.(vlanId := GetUint32(vlanId.value));
      }
    }
  }

  method ApplyContent(entry: VlanEntry, fields: seq<Field>) returns (e: VlanEntry)
    ensures e == VlanOverlay(entry, Field("content", NoValue, fields))
  {
    e := entry;
    var name := FindNestedField(fields, ["name"]);
    if name.Some? {
      e := e.(name := Some(GetString(name.value)));
    }
    var status := FindNestedField(fields, ["status"]);
    if status.Some? {
      e := e.(status := GetString(status.value));
    }
    if e.name.None? {
      var stateName := FindNestedField(fields, ["state", "name"]);
      if stateName.Some? {
        e := e.(name := Some(GetString(stateName.value)));
      }
    }
    if e.status == "" {
      var stateStatus := FindNestedField(fields, ["state", "status"]);
      if stateStatus.Some? {
        e := e.(status := GetString(stateStatus.value));
      }
    }
  }

  /** The loop over the containers of one row. */
  method ExtractVlan(row: seq<Field>) returns (entry: VlanEntry)
    ensures entry == VlanEntryOf(row)
  {
    ghost var want := (i: nat) requires i <= |row| => VlanEntryOf(row[..i]);
    entry := VlanEntry(0, None, "");
    for i := 0 to |row|
      invariant entry == want(i)
    {
      VlanEntrySnoc(row[..i], row[i]);
      assert row[..i + 1] == row[..i] + [row[i]];
      if row[i].name == "keys" {
        entry := ApplyKeys(entry, row[i].fields);
      } else if row[i].name == "content" {
        entry := ApplyContent(entry, row[i].fields);
      }
    }
    assert row[..|row|] == row;
  }

  // ---- The whole message -----------------------------------------------------------------------------------------

  /** One entry per row, except that a row whose id is 0 or missing yields none. */
  function PublishedVlans(rows: seq<seq<Field>>): seq<VlanEntry> {
    if rows == [] then []
    else
      var e := VlanEntryOf(rows[|rows| - 1]);
      PublishedVlans(rows[..|rows| - 1]) + if e.vlanId == 0 then [] else [e]
  }

  method PublishVlan(rows: seq<seq<Field>>) returns (sent: seq<VlanEntry>)
    ensures sent == PublishedVlans(rows)
  {
    sent := [];
    for i := 0 to |rows|
      invariant sent == PublishedVlans(rows[..i])
    {
      assert rows[..i + 1][..i] == rows[..i];
      var entry := ExtractVlan(rows[i]);
      if entry.vlanId != 0 {
        sent := sent + [entry];
      }
    }
    assert rows[..|rows|] == rows;
  }

  /** What a row has to say: an entry, unless its id is 0. */
  function RowEntry(row: seq<Field>): Option<VlanEntry> {
    if VlanEntryOf(row).vlanId == 0 then None else Some(VlanEntryOf(row))
  }

  function RowEntries(rows: seq<seq<Field>>): seq<Option<VlanEntry>> {
    seq(|rows|, i requires 0 <= i < |rows| => RowEntry(rows[i]))
  }

  lemma {:induction false} PublishedVlansAreSomes(rows: seq<seq<Field>>)
    ensures PublishedVlans(rows) == Somes(RowEntries(rows))
  {
    if rows != [] {
      PublishedVlansAreSomes(rows[..|rows| - 1]);
      assert RowEntries(rows)[..|rows| - 1] == RowEntries(rows[..|rows| - 1]);
    }
  }

  /** A message publishes one entry for each row with an id, in the order of the rows, and nothing else. */
  lemma PublishedVlansMeaning(rows: seq<seq<Field>>) returns (at: seq<nat>)
    ensures Keeps(RowEntries(rows), PublishedVlans(rows), at)
  {
    PublishedVlansAreSomes(rows);
    at := SomesMeaning(RowEntries(rows));
  }

  /** With one content container, the name under content wins over the one under content/state, empty or
      not; the status under content wins unless it is empty. */
  lemma OneContent(row: seq<Field>, content: Field)
    requires content in row && content.name == "content"
    requires forall c :: c in row && c.name == "content" ==> c == content
    ensures VlanEntryOf(row).name == Or(ReadDirectName(content), ReadStateName(content))
    ensures VlanEntryOf(row).status == NextStatus("", content)
  {
    LastSomeIsARead(row, ReadDirectName);
    FirstSomeIsARead(row, ReadStateName);
    StatusOfOneContent(row, content);
  }

  lemma {:induction false} StatusOfOneContent(row: seq<Field>, content: Field)
    requires content.name == "content"
    requires forall c :: c in row && c.name == "content" ==> c == content
    ensures StatusOf(row) == if content in row then NextStatus("", content) else ""
  {
    if row != [] {
      var init, last := row[..|row| - 1], row[|row| - 1];
      StatusOfOneContent(init, content);
      assert forall c :: c in row <==> c in init || c == last;
    }
  }

  // ---- What the tree says ------------------------------------------------------------------------------------------

  /** The path leads from a container of that name to g. */
  ghost predicate ContainerReaches(row: seq<Field>, name: string, path: seq<string>, g: Field) {
    exists c :: c in row && c.name == name && Reaches(c.fields, path, g)
  }

  ghost predicate NoneReaches(row: seq<Field>, name: string, path: seq<string>) {
    forall g :: !ContainerReaches(row, name, path, g)
  }

  ghost predicate AtMostOne(row: seq<Field>, name: string) {
    forall c, d :: c in row && d in row && c.name == name && d.name == name ==> c == d
  }

  /** The number under keys: "id" if it is there, or else "vlan-id", or else 0. */
  ghost predicate IsIdOf(row: seq<Field>, id: int) {
    && (forall g, n :: ContainerReaches(row, "keys", ["id"], g) && SaysNumber(g, n) ==> id == n)
    && (NoneReaches(row, "keys", ["id"]) ==>
          && (forall g, n :: ContainerReaches(row, "keys", ["vlan-id"], g) && SaysNumber(g, n) ==> id == n)
          && (NoneReaches(row, "keys", ["vlan-id"]) ==> id == 0))
  }

  /** The name directly under content, the empty one included, or else the one under content/state. */
  ghost predicate VlanNameFlows(row: seq<Field>, before: Option<string>, after: Option<string>) {
    && (forall g, s :: ContainerReaches(row, "content", ["name"], g) && SaysText(g, s) ==> after == Some(s))
    && (NoneReaches(row, "content", ["name"]) ==>
          && (forall g, s :: ContainerReaches(row, "content", ["state", "name"], g) && SaysText(g, s) ==> after == Some(s))
          && (NoneReaches(row, "content", ["state", "name"]) ==> after == before))
  }

  /** A status under content, or else under content/state, that is not empty. */
  ghost predicate StatusSaid(row: seq<Field>, path: seq<string>, s: string) {
    s != "" && exists g :: ContainerReaches(row, "content", path, g) && SaysText(g, s)
  }

  ghost predicate StatusFlows(row: seq<Field>, before: Option<string>, after: Option<string>) {
    && (forall s :: StatusSaid(row, ["status"], s) ==> after == Some(s))
    && ((forall s :: !StatusSaid(row, ["status"], s)) ==>
          && (forall s :: StatusSaid(row, ["state", "status"], s) ==> after == Some(s))
          && ((forall s :: !StatusSaid(row, ["state", "status"], s)) ==> after == before))
  }

  ghost predicate VlanFollowsTree(row: seq<Field>, e: VlanEntry) {
    && IsIdOf(row, e.vlanId)
    && VlanNameFlows(row, None, e.name)
    && StatusFlows(row, None, if e.status == "" then None else Some(e.status))
  }

  /** In the one container of a name, a path leads where findNestedField leads. */
  lemma OneContainer(row: seq<Field>, c: Field, path: seq<string>)
    requires c in row && AtMostOne(row, c.name) && PlainNames(path)
    ensures forall g :: ContainerReaches(row, c.name, path, g) <==> FindNested(c.fields, path) == Some(g)
  {
    forall g
      ensures ContainerReaches(row, c.name, path, g) <==> FindNested(c.fields, path) == Some(g)
    {
      FindNestedIff(c.fields, path, g);
    }
  }

  lemma IdFollows(row: seq<Field>)
    requires AtMostOne(row, "keys")
    ensures IsIdOf(row, VlanEntryOf(row).vlanId)
  {
    LastSomeIsARead(row, ReadVlanId);
    if c :| c in row && c.name == "keys" {
      OneContainer(row, c, ["id"]);
      OneContainer(row, c, ["vlan-id"]);
      forall g, n | SaysNumber(g, n)
        ensures n == GetUint32(g)
      {
        GettersMeaning(g);
      }
    }
  }

  /** What the one content container says along a path. */
  lemma OneContentSays(row: seq<Field>, c: Field, path: seq<string>)
    requires c in row && c.name == "content" && AtMostOne(row, "content") && PlainNames(path)
    ensures var said := Text(FindNested(c.fields, path));
            && (said.None? <==> NoneReaches(row, "content", path))
            && (forall g, s :: ContainerReaches(row, "content", path, g) && SaysText(g, s) ==> said == Some(s))
            && (forall s :: StatusSaid(row, path, s) <==> said == Some(s) && s != "")
  {
    OneContainer(row, c, path);
    var found := FindNested(c.fields, path);
    if found.Some? {
      GettersMeaning(found.value);
    }
  }

  lemma SaidNameFlows(row: seq<Field>, c: Field)
    requires c in row && c.name == "content" && AtMostOne(row, "content")
    ensures VlanNameFlows(row, None, Or(ReadDirectName(c), ReadStateName(c)))
  {
    OneContentSays(row, c, ["name"]);
    OneContentSays(row, c, ["state", "name"]);
  }

  lemma SaidStatusFlows(row: seq<Field>, c: Field)
    requires c in row && c.name == "content" && AtMostOne(row, "content")
    ensures var status := NextStatus("", c); StatusFlows(row, None, if status == "" then None else Some(status))
  {
    OneContentSays(row, c, ["status"]);
    OneContentSays(row, c, ["state", "status"]);
  }

  lemma ContentFollows(row: seq<Field>, c: Field)
    requires c in row && c.name == "content" && AtMostOne(row, "content")
    ensures VlanNameFlows(row, None, VlanEntryOf(row).name)
    ensures var status := VlanEntryOf(row).status; StatusFlows(row, None, if status == "" then None else Some(status))
  {
    OneContent(row, c);
    SaidNameFlows(row, c);
    SaidStatusFlows(row, c);
  }

  lemma NoContent(row: seq<Field>)
    requires forall c :: c in row ==> c.name != "content"
    ensures VlanEntryOf(row).name == None && VlanEntryOf(row).status == ""
  {
    LastSomeIsARead(row, ReadDirectName);
    FirstSomeIsARead(row, ReadStateName);
    StatusOfOneContent(row, Field("content", NoValue, []));
  }

  /** With at most one keys and one content container, the extracted entry says what the tree says. */
  lemma VlanFollows(row: seq<Field>)
    requires AtMostOne(row, "keys") && AtMostOne(row, "content")
    ensures VlanFollowsTree(row, VlanEntryOf(row))
  {
    IdFollows(row);
    if c :| c in row && c.name == "content" {
      ContentFollows(row, c);
    } else {
      NoContent(row);
    }
  }
}
