/** publishInterface as a whole, and the two ways IOS-XE serialises the same interfaces. */
module Layout {
  import opened Options
  import opened Telemetry
  import opened Readings
  import opened Walk
  import opened Extract
  import opened TreeReading

  /** The entries published for a list of interface nodes: one each, except that a node without a name field
      of its own yields none. */
  function Published(maskLen: string -> PrefixLen, nodes: seq<Field>): seq<IfEntry> {
    if nodes == [] then []
    else
      var e := EntryOf(nodes[|nodes| - 1].name, maskLen, nodes[|nodes| - 1].fields);
      Published(maskLen, nodes[..|nodes| - 1]) + if e.name == "" then [] else [e]
  }

  /** The first field called content. */
  function ContentOf(row: seq<Field>): Option<Field> {
    if row == [] then None else if row[0].name == "content" then Some(row[0]) else ContentOf(row[1..])
  }

  function PublishedRow(maskLen: string -> PrefixLen, row: seq<Field>): seq<IfEntry> {
    var content := ContentOf(row);
    if content.None? then [] else Published(maskLen, Collected(content.value))
  }

  function PublishedRows(maskLen: string -> PrefixLen, rows: seq<seq<Field>>): seq<IfEntry> {
    if rows == [] then []
    else PublishedRows(maskLen, rows[..|rows| - 1]) + PublishedRow(maskLen, rows[|rows| - 1])
  }

  method FindContent(row: seq<Field>) returns (content: Option<Field>)
    ensures content == ContentOf(row)
  {
    for i := 0 to |row|
      invariant ContentOf(row) == ContentOf(row[i..])
    {
      if row[i].name == "content" {
        return Some(row[i]);
      }
      assert row[i..][1..] == row[i + 1..];
    }
    return None;
  }

  lemma PublishOne(maskLen: string -> PrefixLen, nodes: seq<Field>, i: nat)
    requires i < |nodes|
    ensures var e := EntryOf(nodes[i].name, maskLen, nodes[i].fields);
            Published(maskLen, nodes[..i + 1]) == Published(maskLen, nodes[..i]) + if e.name == "" then [] else [e]
  {
    assert nodes[..i + 1][..i] == nodes[..i];
  }

  /** The middle loop: extract every collected node and publish what has a name. */
  method PublishNodes(maskLen: string -> PrefixLen, nodes: seq<Field>) returns (sent: seq<IfEntry>)
    ensures sent == Published(maskLen, nodes)
  {
    ghost var want := (i: nat) requires i <= |nodes| => Published(maskLen, nodes[..i]);
    sent := [];
    for i := 0 to |nodes|
      invariant sent == want(i)
    {
      PublishOne(maskLen, nodes, i);
      var entry := ExtractEntry(nodes[i], maskLen);
      if entry.name != "" {
        sent := sent + [entry];
      }
    }
    assert nodes[..|nodes|] == nodes;
  }

  method PublishInterface(maskLen: string -> PrefixLen, rows: seq<seq<Field>>) returns (sent: seq<IfEntry>)
    ensures sent == PublishedRows(maskLen, rows)
  {
    sent := [];
    for i := 0 to |rows|
      invariant sent == PublishedRows(maskLen, rows[..i])
    {
      assert rows[..i + 1][..i] == rows[..i];
      var content := FindContent(rows[i]);
      if content.Some? {
        var nodes := CollectInterfaces(content.value);
        var more := PublishNodes(maskLen, nodes);
        sent := sent + more;
      }
    }
    assert rows[..|rows|] == rows;
  }

  // ---- What is published -----------------------------------------------------------------------------------------

  /** The content of a row is its first field with exactly that name. */
  lemma {:induction false} ContentOfMeaning(row: seq<Field>) returns (i: nat)
    ensures ContentOf(row).None? <==> forall j :: 0 <= j < |row| ==> row[j].name != "content"
    ensures ContentOf(row).Some? ==>
              && i < |row| && ContentOf(row) == Some(row[i]) && row[i].name == "content"
              && forall j :: 0 <= j < i ==> row[j].name != "content"
  {
    i := 0;
    if row != [] && row[0].name != "content" {
      var l := ContentOfMeaning(row[1..]);
      i := l + 1;
      assert forall j :: 1 <= j < |row| ==> row[j] == row[1..][j - 1];
    }
  }

  /** What a node has to say: an entry, unless it has no name. */
  function NodeEntry(maskLen: string -> PrefixLen, node: Field): Option<IfEntry> {
    var e := EntryOf(node.name, maskLen, node.fields);
    if e.name == "" then None else Some(e)
  }

  function NodeEntries(maskLen: string -> PrefixLen, nodes: seq<Field>): seq<Option<IfEntry>> {
    seq(|nodes|, i requires 0 <= i < |nodes| => NodeEntry(maskLen, nodes[i]))
  }

  /** The nodes that the walk collects below the content of each row, row by row. */
  function NodesOf(rows: seq<seq<Field>>): seq<Field> {
    if rows == [] then []
    else
      var content := ContentOf(rows[|rows| - 1]);
      NodesOf(rows[..|rows| - 1]) + if content.None? then [] else Collected(content.value)
  }

  lemma {:induction false} PublishedIsSomes(maskLen: string -> PrefixLen, nodes: seq<Field>)
    ensures Published(maskLen, nodes) == Somes(NodeEntries(maskLen, nodes))
  {
    if nodes != [] {
      PublishedIsSomes(maskLen, nodes[..|nodes| - 1]);
      assert NodeEntries(maskLen, nodes)[..|nodes| - 1] == NodeEntries(maskLen, nodes[..|nodes| - 1]);
    }
  }

  lemma NodeEntriesAppend(maskLen: string -> PrefixLen, a: seq<Field>, b: seq<Field>)
    ensures NodeEntries(maskLen, a + b) == NodeEntries(maskLen, a) + NodeEntries(maskLen, b)
  {
  }

  lemma PublishedAppend(maskLen: string -> PrefixLen, a: seq<Field>, b: seq<Field>)
    ensures Published(maskLen, a + b) == Published(maskLen, a) + Published(maskLen, b)
  {
    PublishedIsSomes(maskLen, a);
    PublishedIsSomes(maskLen, b);
    PublishedIsSomes(maskLen, a + b);
    NodeEntriesAppend(maskLen, a, b);
    SomesAppend(NodeEntries(maskLen, a), NodeEntries(maskLen, b));
  }

  lemma {:induction false} RowsAreOneList(maskLen: string -> PrefixLen, rows: seq<seq<Field>>)
    ensures PublishedRows(maskLen, rows) == Published(maskLen, NodesOf(rows))
  {
    if rows != [] {
      var init, content := rows[..|rows| - 1], ContentOf(rows[|rows| - 1]);
      RowsAreOneList(maskLen, init);
      PublishedAppend(maskLen, NodesOf(init), if content.None? then [] else Collected(content.value));
    }
  }

  /** A message publishes one entry for each named node that the walk collects below the content of a row, in
      the order of the rows and of the walk, and nothing else. */
  lemma PublishedRowsMeaning(maskLen: string -> PrefixLen, rows: seq<seq<Field>>) returns (at: seq<nat>)
    ensures Keeps(NodeEntries(maskLen, NodesOf(rows)), PublishedRows(maskLen, rows), at)
  {
    RowsAreOneList(maskLen, rows);
    PublishedIsSomes(maskLen, NodesOf(rows));
    at := SomesMeaning(NodeEntries(maskLen, NodesOf(rows)));
  }

  /** A message with one interface below content, which says nothing but its name. */
  function LoneInterface(ifType: string, name: Scalar): seq<seq<Field>> {
    [[Field("content", NoValue, [Field(ifType, NoValue, [Field("name", name, [])])])]]
  }

  lemma LoneWalk(ifType: string, name: Scalar)
    requires name != NoValue
    ensures var node := Field(ifType, NoValue, [Field("name", name, [])]);
            IsIface(node) && NodesOf(LoneInterface(ifType, name)) == [node]
  {
    var leaf := Field("name", name, []);
    var node := Field(ifType, NoValue, [leaf]);
    var content := Field("content", NoValue, [node]);
    IsIfaceIff(node);
    assert node.fields[0] == leaf;
    NoLinks([leaf]);
    assert Visit(node) == [node];
    assert [node] == [] + [node];
    VisitLast([], node, false);
    assert Collected(content) == [node];
    var rows := LoneInterface(ifType, name);
    assert rows[..0] == [] && ContentOf(rows[0]) == Some(content);
  }

  lemma LoneEntry(maskLen: string -> PrefixLen, ifType: string, name: Scalar)
    requires name != NoValue
    ensures var fs := [Field("name", name, [])];
            var e := EntryOf(ifType, maskLen, fs);
            && e == EMPTY.(name := e.name)
            && (name.StringValue? && name.text != "" ==> e.name == ifType + name.text)
            && (name.Uint32Value? ==> exists d :: IsDecimalOf(d, name.number) && e.name == ifType + d)
            && (name == StringValue("") || name.OtherValue? ==> e.name == ifType + "0")
  {
    var leaf := Field("name", name, []);
    assert Is(leaf, "name");
    EntrySnoc(ifType, maskLen, [], leaf);
    assert [] + [leaf] == [leaf];
    GettersMeaning(leaf);
    if name.Uint32Value? {
      DecimalMeaning(name.number);
    }
  }

  /** Whatever kind of value its name has, such an interface is published as exactly one entry: named by its
      type and the text, or by its type and the number in decimal, and with every other column unset. */
  lemma LoneInterfaceIsPublished(maskLen: string -> PrefixLen, ifType: string, name: Scalar) returns (e: IfEntry)
    requires name != NoValue
    ensures PublishedRows(maskLen, LoneInterface(ifType, name)) == [e]
    ensures e == IfEntry(e.name, None, false, None, None, "", 0, None, None)
    ensures name.StringValue? && name.text != "" ==> e.name == ifType + name.text
    ensures name.Uint32Value? ==> exists d :: IsDecimalOf(d, name.number) && e.name == ifType + d
    ensures name == StringValue("") || name.OtherValue? ==> e.name == ifType + "0"
  {
    var rows, node := LoneInterface(ifType, name), Field(ifType, NoValue, [Field("name", name, [])]);
    LoneWalk(ifType, name);
    LoneEntry(maskLen, ifType, name);
    RowsAreOneList(maskLen, rows);
    e := EntryOf(ifType, maskLen, node.fields);
    assert [node][..0] == [];
    assert Published(maskLen, [node]) == Published(maskLen, [node][..0]) + [e];
  }

  lemma NumericNameIsPublished(maskLen: string -> PrefixLen, ifType: string, n: UInt32, digits: string)
    requires IsDecimalOf(digits, n)
    ensures PublishedRows(maskLen, LoneInterface(ifType, Uint32Value(n))) ==
            [IfEntry(ifType + digits, None, false, None, None, "", 0, None, None)]
  {
    var e := LoneInterfaceIsPublished(maskLen, ifType, Uint32Value(n));
    var d :| IsDecimalOf(d, n) && e.name == ifType + d;
    OneDecimal(d, digits, n);
  }

  lemma TenInDecimal(digits: string)
    requires digits == "10"
    ensures IsDecimalOf(digits, 10)
  {
    assert digits[..1] == "1" && digits[..1][..0] == "";
    assert ValueOf(digits[..1]) == 1;
  }

  /** The interface of VLAN 10, whose name is a number. */
  lemma Vlan10IsPublished(maskLen: string -> PrefixLen, n: UInt32, digits: string)
    requires n == 10 && digits == "10"
    ensures PublishedRows(maskLen, LoneInterface("Vlan", Uint32Value(n))) ==
            [IfEntry("Vlan" + digits, None, false, None, None, "", 0, None, None)]
  {
    TenInDecimal(digits);
    NumericNameIsPublished(maskLen, "Vlan", n, digits);
  }

  /** An interface node that goes unpublished: its only name leaf carries a module prefix. */
  lemma PrefixedNameIsUnpublished(maskLen: string -> PrefixLen)
    ensures var leaf := Field("native:name", StringValue("1/0/1"), []);
            var node := Field("GigabitEthernet", NoValue, [leaf]);
            IsIface(node) && EntryOf(node.name, maskLen, node.fields).name == "" && Published(maskLen, [node]) == []
  {
    var leaf := Field("native:name", StringValue("1/0/1"), []);
    var node := Field("GigabitEthernet", NoValue, [leaf]);
    LastColon("native:", "name");
    assert leaf.name == "native:" + "name";
    assert IsNameLeaf(node.fields[0]);
    UnpublishedIff(node.name, maskLen, node.fields);
    assert [node][..0] == [];
  }

  // ---- The two layouts -------------------------------------------------------------------------------------------

  /** An interface instance: its own data fields, and where in them a serialiser puts a chain link. */
  datatype Instance = Instance(data: seq<Field>, cut: nat)

  /** The instances of one type, in order. */
  datatype Group = Group(ifType: string, members: seq<Instance>)

  /** The data make an interface node, and none of them is an interface node itself. */
  ghost predicate WellFormed(m: Instance) {
    && m.cut <= |m.data|
    && (exists i :: 0 <= i < |m.data| && IsNameLeaf(m.data[i]))
    && (forall i :: 0 <= i < |m.data| ==> !IsIface(m.data[i]))
  }

  ghost predicate AllWellFormed(ms: seq<Instance>) {
    forall i :: 0 <= i < |ms| ==> WellFormed(ms[i])
  }

  function Node(ifType: string, data: seq<Field>): Field {
    Field(ifType, NoValue, data)
  }

  /** Flat: the instances are siblings. */
  function Siblings(ifType: string, ms: seq<Instance>): seq<Field> {
    if ms == [] then [] else Siblings(ifType, ms[..|ms| - 1]) + [Node(ifType, ms[|ms| - 1].data)]
  }

  /** Nested: each instance holds the next one among its own fields. */
  function Chain(ifType: string, ms: seq<Instance>): Field
    requires ms != []
    requires forall i :: 0 <= i < |ms| ==> ms[i].cut <= |ms[i].data|
    decreases |ms|
  {
    var m := ms[0];
    if |ms| == 1 then Node(ifType, m.data)
    else Node(ifType, m.data[..m.cut] + [Chain(ifType, ms[1..])] + m.data[m.cut..])
  }

  function FlatContent(groups: seq<Group>): seq<Field> {
    if groups == [] then []
    else
      var g := groups[|groups| - 1];
      FlatContent(groups[..|groups| - 1]) + Siblings(g.ifType, g.members)
  }

  function NestedContent(groups: seq<Group>): seq<Field>
    requires forall i :: 0 <= i < |groups| ==> forall j :: 0 <= j < |groups[i].members| ==>
                                                             groups[i].members[j].cut <= |groups[i].members[j].data|
  {
    if groups == [] then []
    else
      var g := groups[|groups| - 1];
      NestedContent(groups[..|groups| - 1]) + if g.members == [] then [] else [Chain(g.ifType, g.members)]
  }

  /** The entries the instances stand for. */
  function Meant(maskLen: string -> PrefixLen, ifType: string, ms: seq<Instance>): multiset<IfEntry> {
    if ms == [] then multiset{}
    else MeantOne(maskLen, ifType, ms[0]) + Meant(maskLen, ifType, ms[1..])
  }

  function MeantOne(maskLen: string -> PrefixLen, ifType: string, m: Instance): multiset<IfEntry> {
    var e := EntryOf(ifType, maskLen, m.data);
    if e.name == "" then multiset{} else multiset{e}
  }

  function Entries(maskLen: string -> PrefixLen, nodes: seq<Field>): multiset<IfEntry> {
    multiset(Published(maskLen, nodes))
  }

  lemma EntriesAppend(maskLen: string -> PrefixLen, a: seq<Field>, b: seq<Field>)
    ensures Entries(maskLen, a + b) == Entries(maskLen, a) + Entries(maskLen, b)
  {
    PublishedAppend(maskLen, a, b);
  }

  lemma EntriesOne(maskLen: string -> PrefixLen, f: Field, ifType: string, m: Instance)
    requires EntryOf(f.name, maskLen, f.fields) == EntryOf(ifType, maskLen, m.data)
    ensures Entries(maskLen, [f]) == MeantOne(maskLen, ifType, m)
  {
    assert [f][..0] == [];
    assert Published(maskLen, [f][..0]) == [];
  }

  /** Fields that are no interfaces have no links to follow. */
  lemma {:induction false} NoLinks(fs: seq<Field>)
    requires forall i :: 0 <= i < |fs| ==> !IsIface(fs[i])
    ensures VisitAll(fs, true) == []
  {
    if fs != [] {
      NoLinks(fs[..|fs| - 1]);
    }
  }

  lemma VisitPlainNode(ifType: string, m: Instance)
    requires WellFormed(m)
    ensures IsIface(Node(ifType, m.data))
    ensures Visit(Node(ifType, m.data)) == [Node(ifType, m.data)]
  {
    var i :| 0 <= i < |m.data| && IsNameLeaf(m.data[i]);
    NoLinks(m.data);
    assert IsIface(Node(ifType, m.data));
  }

  lemma VisitTwo(a: seq<Field>, next: Field, b: seq<Field>)
    requires IsIface(next)
    requires forall i :: 0 <= i < |a| ==> !IsIface(a[i])
    requires forall i :: 0 <= i < |b| ==> !IsIface(b[i])
    ensures VisitAll(a + [next] + b, true) == Visit(next)
  {
    NoLinks(a);
    NoLinks(b);
    VisitAllAppend(a + [next], b, true);
    VisitAllAppend(a, [next], true);
    assert [next][..0] == [];
    assert VisitAll([next], true) == Visit(next) + VisitAll([next][..0], true);
    assert Visit(next) + [] == Visit(next);
  }

  lemma LinkedNodeIsIface(ifType: string, m: Instance, next: Field)
    requires WellFormed(m)
    ensures IsIface(Node(ifType, m.data[..m.cut] + [next] + m.data[m.cut..]))
  {
    var fs := m.data[..m.cut] + [next] + m.data[m.cut..];
    var i :| 0 <= i < |m.data| && IsNameLeaf(m.data[i]);
    assert fs[if i < m.cut then i else i + 1] == m.data[i];
  }

  lemma VisitLinkedNode(ifType: string, m: Instance, next: Field)
    requires WellFormed(m) && IsIface(next)
    ensures var f := Node(ifType, m.data[..m.cut] + [next] + m.data[m.cut..]);
            IsIface(f) && Visit(f) == [f] + Visit(next)
  {
    LinkedNodeIsIface(ifType, m, next);
    VisitTwo(m.data[..m.cut], next, m.data[m.cut..]);
  }

  /** The link does not show in the entry. */
  lemma LinkedNodeEntry(maskLen: string -> PrefixLen, ifType: string, m: Instance, next: Field)
    requires m.cut <= |m.data| && IsIface(next)
    ensures Entries(maskLen, [Node(ifType, m.data[..m.cut] + [next] + m.data[m.cut..])]) == MeantOne(maskLen, ifType, m)
  {
    LinkIsInvisible(ifType, maskLen, m.data[..m.cut], next, m.data[m.cut..]);
    assert m.data[..m.cut] + m.data[m.cut..] == m.data;
    EntriesOne(maskLen, Node(ifType, m.data[..m.cut] + [next] + m.data[m.cut..]), ifType, m);
  }

  /** One instance with a link to the next: its own entry, and what the walk finds from the link on. */
  lemma LinkedNodeEntries(maskLen: string -> PrefixLen, ifType: string, m: Instance, next: Field)
    requires WellFormed(m) && IsIface(next)
    ensures var f := Node(ifType, m.data[..m.cut] + [next] + m.data[m.cut..]);
            && IsIface(f)
            && Entries(maskLen, Visit(f)) == MeantOne(maskLen, ifType, m) + Entries(maskLen, Visit(next))
  {
    var f := Node(ifType, m.data[..m.cut] + [next] + m.data[m.cut..]);
    VisitLinkedNode(ifType, m, next);
    EntriesAppend(maskLen, [f], Visit(next));
    LinkedNodeEntry(maskLen, ifType, m, next);
  }

  lemma PlainNodeEntries(maskLen: string -> PrefixLen, ifType: string, m: Instance)
    requires WellFormed(m)
    ensures IsIface(Node(ifType, m.data))
    ensures Entries(maskLen, Visit(Node(ifType, m.data))) == MeantOne(maskLen, ifType, m)
  {
    VisitPlainNode(ifType, m);
    EntriesOne(maskLen, Node(ifType, m.data), ifType, m);
  }

  /** A chain is walked instance by instance, and yields the entries its instances stand for. */
  lemma {:induction false} ChainEntries(maskLen: string -> PrefixLen, ifType: string, ms: seq<Instance>)
    requires ms != [] && AllWellFormed(ms)
    ensures IsIface(Chain(ifType, ms))
    ensures Entries(maskLen, Visit(Chain(ifType, ms))) == Meant(maskLen, ifType, ms)
    decreases |ms|
  {
    assert Meant(maskLen, ifType, ms) == MeantOne(maskLen, ifType, ms[0]) + Meant(maskLen, ifType, ms[1..]);
    if |ms| == 1 {
      PlainNodeEntries(maskLen, ifType, ms[0]);
      assert ms[1..] == [];
    } else {
      ChainEntries(maskLen, ifType, ms[1..]);
      LinkedNodeEntries(maskLen, ifType, ms[0], Chain(ifType, ms[1..]));
    }
  }

  lemma {:induction false} MeantSnoc(maskLen: string -> PrefixLen, ifType: string, ms: seq<Instance>, m: Instance)
    ensures Meant(maskLen, ifType, ms + [m]) == Meant(maskLen, ifType, ms) + MeantOne(maskLen, ifType, m)
  {
    if ms == [] {
      assert ms + [m] == [m];
      assert [m][1..] == [];
      assert Meant(maskLen, ifType, [m][1..]) == multiset{};
    } else {
      assert (ms + [m])[1..] == ms[1..] + [m];
      MeantSnoc(maskLen, ifType, ms[1..], m);
    }
  }

  lemma SnocEntries(maskLen: string -> PrefixLen, fs: seq<Field>, f: Field)
    ensures Entries(maskLen, VisitAll(fs + [f], false)) ==
            Entries(maskLen, Visit(f)) + Entries(maskLen, VisitAll(fs, false))
  {
    VisitLast(fs, f, false);
    EntriesAppend(maskLen, Visit(f), VisitAll(fs, false));
  }

  /** Walking the nodes `fs` yields the entries of the instances. */
  ghost predicate Yields(maskLen: string -> PrefixLen, ifType: string, fs: seq<Field>, ms: seq<Instance>) {
    Entries(maskLen, VisitAll(fs, false)) == Meant(maskLen, ifType, ms)
  }

  lemma OneMoreSibling(maskLen: string -> PrefixLen, ifType: string, fs: seq<Field>, init: seq<Instance>, m: Instance)
    requires WellFormed(m) && Yields(maskLen, ifType, fs, init)
    ensures Yields(maskLen, ifType, fs + [Node(ifType, m.data)], init + [m])
  {
    SnocEntries(maskLen, fs, Node(ifType, m.data));
    PlainNodeEntries(maskLen, ifType, m);
    MeantSnoc(maskLen, ifType, init, m);
  }

  lemma SplitLast(ifType: string, ms: seq<Instance>)
    requires ms != [] && AllWellFormed(ms)
    ensures var n := |ms| - 1;
            && AllWellFormed(ms[..n]) && WellFormed(ms[n]) && ms[..n] + [ms[n]] == ms
            && Siblings(ifType, ms) == Siblings(ifType, ms[..n]) + [Node(ifType, ms[n].data)]
  {
  }

  lemma {:induction false} SiblingEntries(maskLen: string -> PrefixLen, ifType: string, ms: seq<Instance>)
    requires AllWellFormed(ms)
    ensures Yields(maskLen, ifType, Siblings(ifType, ms), ms)
  {
    if ms != [] {
      SplitLast(ifType, ms);
      var init, m := ms[..|ms| - 1], ms[|ms| - 1];
      SiblingEntries(maskLen, ifType, init);
      OneMoreSibling(maskLen, ifType, Siblings(ifType, init), init, m);
    }
  }

  ghost predicate GroupsWellFormed(groups: seq<Group>) {
    forall i :: 0 <= i < |groups| ==> AllWellFormed(groups[i].members)
  }

  function MeantAll(maskLen: string -> PrefixLen, groups: seq<Group>): multiset<IfEntry> {
    if groups == [] then multiset{}
    else
      var g := groups[|groups| - 1];
      MeantAll(maskLen, groups[..|groups| - 1]) + Meant(maskLen, g.ifType, g.members)
  }

  lemma {:induction false} FlatEntries(maskLen: string -> PrefixLen, groups: seq<Group>)
    requires GroupsWellFormed(groups)
    ensures Entries(maskLen, VisitAll(FlatContent(groups), false)) == MeantAll(maskLen, groups)
  {
    if groups != [] {
      var init, g := groups[..|groups| - 1], groups[|groups| - 1];
      FlatEntries(maskLen, init);
      SiblingEntries(maskLen, g.ifType, g.members);
      var before, last := FlatContent(init), Siblings(g.ifType, g.members);
      VisitAllAppend(before, last, false);
      EntriesAppend(maskLen, VisitAll(last, false), VisitAll(before, false));
    }
  }

  lemma {:induction false} NestedEntries(maskLen: string -> PrefixLen, groups: seq<Group>)
    requires GroupsWellFormed(groups)
    ensures Entries(maskLen, VisitAll(NestedContent(groups), false)) == MeantAll(maskLen, groups)
  {
    if groups != [] {
      var init, g := groups[..|groups| - 1], groups[|groups| - 1];
      NestedEntries(maskLen, init);
      var before := NestedContent(init);
      if g.members == [] {
        assert NestedContent(groups) == before;
      } else {
        var chain := Chain(g.ifType, g.members);
        ChainEntries(maskLen, g.ifType, g.members);
        SnocEntries(maskLen, before, chain);
      }
    }
  }

  /** What the walk of a content node publishes is what the instances stand for, one by one. */
  ghost predicate PublishesMeant(maskLen: string -> PrefixLen, content: Field, groups: seq<Group>) {
    Entries(maskLen, Collected(content)) == MeantAll(maskLen, groups)
  }

  /** Both layouts of the same interfaces, chain links wherever the serialiser put them, publish the same
      multiset of entries: those the instances stand for. */
  lemma LayoutIndependence(maskLen: string -> PrefixLen, groups: seq<Group>, flat: Field, nested: Field)
    requires GroupsWellFormed(groups)
    requires flat.fields == FlatContent(groups) && nested.fields == NestedContent(groups)
    ensures PublishesMeant(maskLen, flat, groups) && PublishesMeant(maskLen, nested, groups)
    ensures multiset(Published(maskLen, Collected(flat))) == multiset(Published(maskLen, Collected(nested)))
  {
    FlatEntries(maskLen, groups);
    NestedEntries(maskLen, groups);
  }
}
