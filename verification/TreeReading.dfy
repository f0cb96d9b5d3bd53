/** What an interface node says about each column, stated on the tree itself: which data field speaks, along
    which path, and what a value of each kind means. */
module TreeReading {
  import opened Options
  import opened Telemetry
  import opened Readings
  import opened Extract

  // ---- Paths -----------------------------------------------------------------------------------------------------

  /** fs[i] is the first field of that name, module prefixes aside. */
  ghost predicate IsFirstCalled(fs: seq<Field>, name: string, i: int) {
    && 0 <= i < |fs| && IsCalled(fs[i].name, name)
    && forall j :: 0 <= j < i ==> !IsCalled(fs[j].name, name)
  }

  /** The path, followed from one first match to the next, ends at g. */
  ghost predicate Reaches(fs: seq<Field>, path: seq<string>, g: Field)
    decreases |path|
  {
    && path != []
    && exists i :: IsFirstCalled(fs, path[0], i) && if |path| == 1 then fs[i] == g else Reaches(fs[i].fields, path[1..], g)
  }

  ghost predicate PlainNames(path: seq<string>) {
    forall i :: 0 <= i < |path| ==> ':' !in path[i]
  }

  lemma FirstNamedIff(fs: seq<Field>, name: string, f: Field)
    requires ':' !in name
    ensures FirstNamed(fs, name) == Some(f) <==> exists i :: IsFirstCalled(fs, name, i) && fs[i] == f
  {
    forall i | 0 <= i < |fs|
      ensures Named(fs[i], name) <==> IsCalled(fs[i].name, name)
    {
      StrippedIff(fs[i].name, name);
    }
    var i := FirstIndex(fs, name, 0);
    if i < |fs| {
      assert IsFirstCalled(fs, name, i);
      assert forall j :: IsFirstCalled(fs, name, j) ==> !(i < j) && !(j < i);
    }
  }

  /** findNestedField finds exactly what the path reaches. */
  lemma {:induction false} FindNestedIff(fs: seq<Field>, path: seq<string>, g: Field)
    requires PlainNames(path)
    ensures FindNested(fs, path) == Some(g) <==> Reaches(fs, path, g)
    decreases |path|
  {
    if path != [] {
      var found := FirstNamed(fs, path[0]);
      forall f
        ensures found == Some(f) <==> exists i :: IsFirstCalled(fs, path[0], i) && fs[i] == f
      {
        FirstNamedIff(fs, path[0], f);
      }
      forall i | IsFirstCalled(fs, path[0], i)
        ensures found == Some(fs[i])
      {
      }
      if found.Some? {
        assert PlainNames(path[1..]);
        FindNestedIff(found.value.fields, path[1..], g);
        var i :| IsFirstCalled(fs, path[0], i) && fs[i] == found.value;
        if |path| > 1 && FindNested(fs, path) == Some(g) {
          assert Reaches(fs[i].fields, path[1..], g);
        }
      }
    }
  }

  // ---- Which field speaks ------------------------------------------------------------------------------------------

  /** The data field f has exactly that name, and the path leads from it to g; an empty path stays there. */
  ghost predicate Leads(f: Field, name: string, path: seq<string>, g: Field) {
    && f.name == name && !IsIface(f)
    && if path == [] then g == f else Reaches(f.fields, path, g)
  }

  ghost predicate IsSilent(f: Field, name: string, path: seq<string>) {
    forall g :: !Leads(f, name, path, g)
  }

  ghost predicate AllSilent(fs: seq<Field>, name: string, path: seq<string>) {
    forall f :: f in fs ==> IsSilent(f, name, path)
  }

  /** g is where the last field that leads anywhere leads to. */
  ghost predicate LastLeads(fs: seq<Field>, name: string, path: seq<string>, g: Field) {
    exists i :: 0 <= i < |fs| && Leads(fs[i], name, path, g) && forall j :: i < j < |fs| ==> IsSilent(fs[j], name, path)
  }

  ghost predicate FirstLeads(fs: seq<Field>, name: string, path: seq<string>, g: Field) {
    exists i :: 0 <= i < |fs| && Leads(fs[i], name, path, g) && forall j :: 0 <= j < i ==> IsSilent(fs[j], name, path)
  }

  /** A reading that follows the path from fields of that name and takes a value from where it ends. */
  ghost predicate ReadsAlong<T>(read: Field -> Option<T>, name: string, path: seq<string>, value: Field -> T) {
    && PlainNames(path)
    && forall f :: read(f) == if !Is(f, name) then None else Taken(if path == [] then Some(f) else FindNested(f.fields, path), value)
  }

  function Taken<T>(g: Option<Field>, value: Field -> T): Option<T> {
    if g.Some? then Some(value(g.value)) else None
  }

  lemma LeadsIff<T>(read: Field -> Option<T>, name: string, path: seq<string>, value: Field -> T, f: Field)
    requires ReadsAlong(read, name, path, value)
    ensures read(f).None? <==> IsSilent(f, name, path)
    ensures forall g :: Leads(f, name, path, g) ==> read(f) == Some(value(g))
  {
    forall g
      ensures Leads(f, name, path, g) <==> Is(f, name) && (if path == [] then Some(f) else FindNested(f.fields, path)) == Some(g)
    {
      FindNestedIff(f.fields, path, g);
    }
    if read(f).Some? {
      var g := if path == [] then f else FindNested(f.fields, path).value;
      assert Leads(f, name, path, g);
    }
  }

  lemma LastLeadsSnoc(init: seq<Field>, last: Field, name: string, path: seq<string>, g: Field)
    requires LastLeads(init + [last], name, path, g)
    ensures Leads(last, name, path, g) || (IsSilent(last, name, path) && LastLeads(init, name, path, g))
  {
    var fs := init + [last];
    var i :| 0 <= i < |fs| && Leads(fs[i], name, path, g) && forall j :: i < j < |fs| ==> IsSilent(fs[j], name, path);
    if i < |init| {
      assert init[i] == fs[i] && IsSilent(fs[|init|], name, path);
      assert forall j :: i < j < |init| ==> init[j] == fs[j];
    }
  }

  lemma FirstLeadsSnoc(init: seq<Field>, last: Field, name: string, path: seq<string>, g: Field)
    requires FirstLeads(init + [last], name, path, g)
    ensures FirstLeads(init, name, path, g) || (AllSilent(init, name, path) && Leads(last, name, path, g))
  {
    var fs := init + [last];
    var i :| 0 <= i < |fs| && Leads(fs[i], name, path, g) && forall j :: 0 <= j < i ==> IsSilent(fs[j], name, path);
    assert forall j :: 0 <= j < |init| ==> init[j] == fs[j];
    if i < |init| {
      assert Leads(init[i], name, path, g);
    }
  }

  lemma AllSilentSnoc(init: seq<Field>, last: Field, name: string, path: seq<string>)
    ensures AllSilent(init + [last], name, path) <==> AllSilent(init, name, path) && IsSilent(last, name, path)
  {
    assert forall f :: f in init + [last] <==> f in init || f == last;
  }

  /** The last reading is what the last field that leads anywhere leads to. */
  ghost predicate SpeaksLast<T>(fs: seq<Field>, spoken: Option<T>, name: string, path: seq<string>, value: Field -> T) {
    && (spoken.None? <==> AllSilent(fs, name, path))
    && forall g :: LastLeads(fs, name, path, g) ==> spoken == Some(value(g))
  }

  ghost predicate SpeaksFirst<T>(fs: seq<Field>, spoken: Option<T>, name: string, path: seq<string>, value: Field -> T) {
    && (spoken.None? <==> AllSilent(fs, name, path))
    && forall g :: FirstLeads(fs, name, path, g) ==> spoken == Some(value(g))
  }

  lemma {:induction false} LastSpeaks<T>(fs: seq<Field>, read: Field -> Option<T>, name: string, path: seq<string>, value: Field -> T)
    requires ReadsAlong(read, name, path, value)
    ensures SpeaksLast(fs, LastSome(fs, read), name, path, value)
  {
    if fs != [] {
      var init, last := fs[..|fs| - 1], fs[|fs| - 1];
      assert fs == init + [last];
      LastSpeaks(init, read, name, path, value);
      OneMoreSpeaks(init, last, LastSome(init, read), read, name, path, value);
    }
  }

  lemma OneMoreSpeaks<T>(init: seq<Field>, last: Field, before: Option<T>, read: Field -> Option<T>, name: string,
                         path: seq<string>, value: Field -> T)
    requires ReadsAlong(read, name, path, value) && SpeaksLast(init, before, name, path, value)
    ensures SpeaksLast(init + [last], Or(read(last), before), name, path, value)
  {
    LeadsIff(read, name, path, value, last);
    AllSilentSnoc(init, last, name, path);
    forall g | LastLeads(init + [last], name, path, g)
      ensures Or(read(last), before) == Some(value(g))
    {
      LastLeadsSnoc(init, last, name, path, g);
    }
  }

  lemma {:induction false} FirstSpeaks<T>(fs: seq<Field>, read: Field -> Option<T>, name: string, path: seq<string>, value: Field -> T)
    requires ReadsAlong(read, name, path, value)
    ensures SpeaksFirst(fs, FirstSome(fs, read), name, path, value)
  {
    if fs != [] {
      var init, last := fs[..|fs| - 1], fs[|fs| - 1];
      assert fs == init + [last];
      FirstSpeaks(init, read, name, path, value);
      OneMoreSpeaksFirst(init, last, FirstSome(init, read), read, name, path, value);
    }
  }

  lemma OneMoreSpeaksFirst<T>(init: seq<Field>, last: Field, before: Option<T>, read: Field -> Option<T>, name: string,
                              path: seq<string>, value: Field -> T)
    requires ReadsAlong(read, name, path, value) && SpeaksFirst(init, before, name, path, value)
    ensures SpeaksFirst(init + [last], Or(before, read(last)), name, path, value)
  {
    LeadsIff(read, name, path, value, last);
    AllSilentSnoc(init, last, name, path);
    forall g | FirstLeads(init + [last], name, path, g)
      ensures Or(before, read(last)) == Some(value(g))
    {
      FirstLeadsSnoc(init, last, name, path, g);
    }
  }

  // ---- What the columns become -------------------------------------------------------------------------------------

  /** The text at the end of the path, the empty one included, is what the column becomes; it stays as it was
      if no field leads there. */
  ghost predicate TextFlows(fs: seq<Field>, name: string, path: seq<string>, before: Option<string>, after: Option<string>) {
    && (forall g, s :: LastLeads(fs, name, path, g) && SaysText(g, s) ==> after == Some(s))
    && (AllSilent(fs, name, path) ==> after == before)
  }

  /** The same for a subnet mask, as a prefix length. */
  ghost predicate MaskFlows(maskLen: string -> PrefixLen, fs: seq<Field>, before: Option<int>, after: Option<int>) {
    var path := ["address", "primary", "mask"];
    && (forall g, s :: LastLeads(fs, "ip", path, g) && SaysText(g, s) ==> after == Some(maskLen(s)))
    && (AllSilent(fs, "ip", path) ==> after == before)
  }

  /** The number at the end of the path below switchport-config, as a 16-bit number; if nothing leads there,
      the one that the first bare switchport container leads to. Numbers of at most 12 bits come out exact. */
  ghost predicate SwitchportFlows(fs: seq<Field>, path: seq<string>, before: Option<int>, after: Option<int>) {
    var config := ["switchport"] + path;
    && (forall g, n :: LastLeads(fs, "switchport-config", config, g) && SaysNumber(g, n) ==> IsVlan(after, n))
    && (AllSilent(fs, "switchport-config", config) ==>
          && (forall g, n :: FirstLeads(fs, "switchport", path, g) && SaysNumber(g, n) ==> IsVlan(after, n))
          && (AllSilent(fs, "switchport", path) ==> after == before))
  }

  predicate IsVlan(vlan: Option<int>, n: int) {
    vlan == Some(n % 0x1_0000) && (n < 4096 ==> vlan == Some(n))
  }

  /** An empty VRF and a missing one are the same to the consumer; so are MTU 0 and a missing MTU. */
  ghost predicate VrfFlows(fs: seq<Field>, before: Option<string>, after: Option<string>) {
    && (forall g, s :: LastLeads(fs, "vrf", ["forwarding"], g) && SaysText(g, s) ==> after == if s == "" then before else Some(s))
    && (AllSilent(fs, "vrf", ["forwarding"]) ==> after == before)
  }

  ghost predicate MtuFlows(fs: seq<Field>, before: Option<int>, after: Option<int>) {
    && (forall g, n :: LastLeads(fs, "mtu", [], g) && SaysNumber(g, n) ==> after == if n == 0 then before else Some(n))
    && (AllSilent(fs, "mtu", []) ==> after == before)
  }

  /** The interface's name: its type followed by the text of its last name field, or by the number if there is
      no text. */
  ghost predicate IsNameOf(ifType: string, fs: seq<Field>, name: string) {
    && (forall g, s :: LastLeads(fs, "name", [], g) && SaysText(g, s) && s != "" ==> name == ifType + s)
    && (forall g, n :: LastLeads(fs, "name", [], g) && SaysText(g, "") && SaysNumber(g, n) ==>
          exists d :: IsDecimalOf(d, n) && name == ifType + d)
    && (AllSilent(fs, "name", []) ==> name == "")
  }

  /** Every column of the entry, from the tree. */
  ghost predicate EntryFollowsTree(ifType: string, maskLen: string -> PrefixLen, fs: seq<Field>, e: IfEntry) {
    && IsNameOf(ifType, fs, e.name)
    && TextFlows(fs, "description", [], None, e.description)
    && (e.shutdown <==> exists f :: f in fs && f.name == "shutdown" && !IsIface(f))
    && TextFlows(fs, "ip", ["address", "primary", "address"], None, e.ipAddress)
    && MaskFlows(maskLen, fs, None, e.prefixLen)
    && VrfFlows(fs, None, if e.vrf == "" then None else Some(e.vrf))
    && MtuFlows(fs, None, if e.mtu == 0 then None else Some(e.mtu))
    && SwitchportFlows(fs, ["access", "vlan", "vlan"], None, e.accessVlan)
    && SwitchportFlows(fs, ["voice", "vlan", "vlan"], None, e.voiceVlan)
  }

  // ---- The readings follow their paths -----------------------------------------------------------------------------

  function NameText(ifType: string): Field -> string {
    f => if GetString(f) != "" then ifType + GetString(f) else ifType + Decimal(GetUint32(f))
  }

  function PrefixOf(maskLen: string -> PrefixLen): Field -> int {
    f => maskLen(GetString(f))
  }

  function VlanOf(f: Field): int {
    GetUint32(f) % 0x1_0000
  }

  lemma DirectReadings(ifType: string)
    ensures ReadsAlong(NameReader(ifType), "name", [], NameText(ifType))
    ensures ReadsAlong(ReadDescription, "description", [], GetString)
    ensures ReadsAlong(ReadMtu, "mtu", [], GetUint32)
    ensures ReadsAlong(ReadShutdown, "shutdown", [], _ => true)
  {
  }

  lemma NestedReadings(maskLen: string -> PrefixLen)
    ensures ReadsAlong(ReadVrf, "vrf", ["forwarding"], GetString)
    ensures ReadsAlong(ReadAddress, "ip", ["address", "primary", "address"], GetString)
    ensures ReadsAlong(PrefixReader(maskLen), "ip", ["address", "primary", "mask"], PrefixOf(maskLen))
  {
  }

  lemma VlanReadings()
    ensures ReadsAlong(ReadConfigAccess, "switchport-config", ["switchport"] + ["access", "vlan", "vlan"], VlanOf)
    ensures ReadsAlong(ReadConfigVoice, "switchport-config", ["switchport"] + ["voice", "vlan", "vlan"], VlanOf)
    ensures ReadsAlong(ReadBareAccess, "switchport", ["access", "vlan", "vlan"], VlanOf)
    ensures ReadsAlong(ReadBareVoice, "switchport", ["voice", "vlan", "vlan"], VlanOf)
  {
    assert ["switchport"] + ["access", "vlan", "vlan"] == ["switchport", "access", "vlan", "vlan"];
    assert ["switchport"] + ["voice", "vlan", "vlan"] == ["switchport", "voice", "vlan", "vlan"];
  }

  lemma TextFollows(fs: seq<Field>, read: Field -> Option<string>, name: string, path: seq<string>)
    requires ReadsAlong(read, name, path, GetString)
    ensures TextFlows(fs, name, path, None, LastSome(fs, read))
  {
    LastSpeaks(fs, read, name, path, GetString);
    forall g, s | LastLeads(fs, name, path, g) && SaysText(g, s)
      ensures LastSome(fs, read) == Some(s)
    {
      GettersMeaning(g);
    }
  }

  lemma VlanSaid(g: Field, n: int)
    requires SaysNumber(g, n)
    ensures IsVlan(Some(VlanOf(g)), n)
  {
    GettersMeaning(g);
  }

  lemma SpokenSwitchportFlows(fs: seq<Field>, path: seq<string>, config: Option<int>, bare: Option<int>)
    requires SpeaksLast(fs, config, "switchport-config", ["switchport"] + path, VlanOf)
    requires SpeaksFirst(fs, bare, "switchport", path, VlanOf)
    ensures SwitchportFlows(fs, path, None, Or(config, bare))
  {
    forall g, n | LastLeads(fs, "switchport-config", ["switchport"] + path, g) && SaysNumber(g, n)
      ensures IsVlan(config, n)
    {
      VlanSaid(g, n);
    }
    forall g, n | FirstLeads(fs, "switchport", path, g) && SaysNumber(g, n)
      ensures IsVlan(bare, n)
    {
      VlanSaid(g, n);
    }
  }

  lemma SwitchportFollows(fs: seq<Field>, config: Field -> Option<int>, bare: Field -> Option<int>, path: seq<string>)
    requires ReadsAlong(config, "switchport-config", ["switchport"] + path, VlanOf) && ReadsAlong(bare, "switchport", path, VlanOf)
    ensures SwitchportFlows(fs, path, None, Or(LastSome(fs, config), FirstSome(fs, bare)))
  {
    LastSpeaks(fs, config, "switchport-config", ["switchport"] + path, VlanOf);
    FirstSpeaks(fs, bare, "switchport", path, VlanOf);
    SpokenSwitchportFlows(fs, path, LastSome(fs, config), FirstSome(fs, bare));
  }

  lemma NameFollows(ifType: string, fs: seq<Field>)
    ensures IsNameOf(ifType, fs, Default(LastSome(fs, NameReader(ifType)), ""))
  {
    DirectReadings(ifType);
    LastSpeaks(fs, NameReader(ifType), "name", [], NameText(ifType));
    forall g, n | LastLeads(fs, "name", [], g) && SaysText(g, "") && SaysNumber(g, n)
      ensures exists d :: IsDecimalOf(d, n) && LastSome(fs, NameReader(ifType)) == Some(ifType + d)
    {
      GettersMeaning(g);
      DecimalMeaning(n);
    }
    forall g, s | LastLeads(fs, "name", [], g) && SaysText(g, s) && s != ""
      ensures LastSome(fs, NameReader(ifType)) == Some(ifType + s)
    {
      GettersMeaning(g);
    }
  }

  lemma ShutdownFollows(fs: seq<Field>)
    ensures LastSome(fs, ReadShutdown).Some? <==> exists f :: f in fs && f.name == "shutdown" && !IsIface(f)
  {
    LastSomeIsARead(fs, ReadShutdown);
  }

  lemma MaskFollows(maskLen: string -> PrefixLen, fs: seq<Field>)
    ensures MaskFlows(maskLen, fs, None, LastSome(fs, PrefixReader(maskLen)))
  {
    NestedReadings(maskLen);
    LastSpeaks(fs, PrefixReader(maskLen), "ip", ["address", "primary", "mask"], PrefixOf(maskLen));
    forall g, s | LastLeads(fs, "ip", ["address", "primary", "mask"], g) && SaysText(g, s)
      ensures LastSome(fs, PrefixReader(maskLen)) == Some(maskLen(s))
    {
      GettersMeaning(g);
    }
  }

  lemma VrfFollows(maskLen: string -> PrefixLen, fs: seq<Field>)
    ensures var vrf := Default(LastSome(fs, ReadVrf), ""); VrfFlows(fs, None, if vrf == "" then None else Some(vrf))
  {
    NestedReadings(maskLen);
    TextFollows(fs, ReadVrf, "vrf", ["forwarding"]);
  }

  lemma MtuFollows(fs: seq<Field>)
    ensures var mtu := Default(LastSome(fs, ReadMtu), 0); MtuFlows(fs, None, if mtu == 0 then None else Some(mtu))
  {
    DirectReadings("");
    LastSpeaks(fs, ReadMtu, "mtu", [], GetUint32);
    forall g, n | LastLeads(fs, "mtu", [], g) && SaysNumber(g, n)
      ensures LastSome(fs, ReadMtu) == Some(n)
    {
      GettersMeaning(g);
    }
  }

  /** Whatever the fields of the node, in whatever number and order, the extracted entry says of each column
      what the tree says. */
  lemma EntryFollows(ifType: string, maskLen: string -> PrefixLen, fs: seq<Field>)
    ensures EntryFollowsTree(ifType, maskLen, fs, EntryOf(ifType, maskLen, fs))
  {
    DirectReadings(ifType);
    NestedReadings(maskLen);
    VlanReadings();
    NameFollows(ifType, fs);
    TextFollows(fs, ReadDescription, "description", []);
    ShutdownFollows(fs);
    TextFollows(fs, ReadAddress, "ip", ["address", "primary", "address"]);
    MaskFollows(maskLen, fs);
    VrfFollows(maskLen, fs);
    MtuFollows(fs);
    SwitchportFollows(fs, ReadConfigAccess, ReadBareAccess, ["access", "vlan", "vlan"]);
    SwitchportFollows(fs, ReadConfigVoice, ReadBareVoice, ["voice", "vlan", "vlan"]);
  }

  // ---- The tree leaves no choice -----------------------------------------------------------------------------------

  lemma {:induction false} SomebodyIsLast(fs: seq<Field>, name: string, path: seq<string>) returns (g: Field)
    requires !AllSilent(fs, name, path)
    ensures LastLeads(fs, name, path, g)
  {
    var init, last := fs[..|fs| - 1], fs[|fs| - 1];
    assert fs == init + [last];
    AllSilentSnoc(init, last, name, path);
    if IsSilent(last, name, path) {
      g := SomebodyIsLast(init, name, path);
      var i :| 0 <= i < |init| && Leads(init[i], name, path, g) && forall j :: i < j < |init| ==> IsSilent(init[j], name, path);
      assert fs[i] == init[i] && forall j :: i < j < |fs| ==> fs[j] == if j < |init| then init[j] else last;
    } else {
      g :| Leads(last, name, path, g);
      assert fs[|init|] == last;
    }
  }

  lemma {:induction false} SomebodyIsFirst(fs: seq<Field>, name: string, path: seq<string>) returns (g: Field)
    requires !AllSilent(fs, name, path)
    ensures FirstLeads(fs, name, path, g)
  {
    var init, last := fs[..|fs| - 1], fs[|fs| - 1];
    assert fs == init + [last];
    AllSilentSnoc(init, last, name, path);
    if AllSilent(init, name, path) {
      g :| Leads(last, name, path, g);
      assert fs[|init|] == last;
      assert forall j :: 0 <= j < |init| ==> fs[j] == init[j] && init[j] in init;
    } else {
      g := SomebodyIsFirst(init, name, path);
      var i :| 0 <= i < |init| && Leads(init[i], name, path, g) && forall j :: 0 <= j < i ==> IsSilent(init[j], name, path);
      assert fs[i] == init[i] && forall j :: 0 <= j < i ==> fs[j] == init[j];
    }
  }

  lemma OneText(fs: seq<Field>, name: string, path: seq<string>, before: Option<string>, x: Option<string>, y: Option<string>)
    requires TextFlows(fs, name, path, before, x) && TextFlows(fs, name, path, before, y)
    ensures x == y
  {
    if !AllSilent(fs, name, path) {
      var g := SomebodyIsLast(fs, name, path);
      GettersMeaning(g);
      assert SaysText(g, GetString(g));
    }
  }

  lemma OneMask(maskLen: string -> PrefixLen, fs: seq<Field>, before: Option<int>, x: Option<int>, y: Option<int>)
    requires MaskFlows(maskLen, fs, before, x) && MaskFlows(maskLen, fs, before, y)
    ensures x == y
  {
    if !AllSilent(fs, "ip", ["address", "primary", "mask"]) {
      var g := SomebodyIsLast(fs, "ip", ["address", "primary", "mask"]);
      GettersMeaning(g);
      assert SaysText(g, GetString(g));
    }
  }

  lemma OneVrf(fs: seq<Field>, before: Option<string>, x: Option<string>, y: Option<string>)
    requires VrfFlows(fs, before, x) && VrfFlows(fs, before, y)
    ensures x == y
  {
    if !AllSilent(fs, "vrf", ["forwarding"]) {
      var g := SomebodyIsLast(fs, "vrf", ["forwarding"]);
      GettersMeaning(g);
      assert SaysText(g, GetString(g));
    }
  }

  lemma OneMtu(fs: seq<Field>, before: Option<int>, x: Option<int>, y: Option<int>)
    requires MtuFlows(fs, before, x) && MtuFlows(fs, before, y)
    ensures x == y
  {
    if !AllSilent(fs, "mtu", []) {
      var g := SomebodyIsLast(fs, "mtu", []);
      GettersMeaning(g);
      assert SaysNumber(g, GetUint32(g));
    }
  }

  lemma OneVlan(fs: seq<Field>, path: seq<string>, before: Option<int>, x: Option<int>, y: Option<int>)
    requires SwitchportFlows(fs, path, before, x) && SwitchportFlows(fs, path, before, y)
    ensures x == y
  {
    if !AllSilent(fs, "switchport-config", ["switchport"] + path) {
      var g := SomebodyIsLast(fs, "switchport-config", ["switchport"] + path);
      GettersMeaning(g);
      assert SaysNumber(g, GetUint32(g));
    } else if !AllSilent(fs, "switchport", path) {
      var g := SomebodyIsFirst(fs, "switchport", path);
      GettersMeaning(g);
      assert SaysNumber(g, GetUint32(g));
    }
  }

  lemma {:induction false} OneDecimal(s: string, t: string, n: nat)
    requires IsDecimalOf(s, n) && IsDecimalOf(t, n)
    ensures s == t
    decreases n
  {
    DecimalSplit(s, n);
    DecimalSplit(t, n);
    if n >= 10 {
      OneDecimal(s[..|s| - 1], t[..|t| - 1], n / 10);
      assert s == s[..|s| - 1] + [s[|s| - 1]] && t == t[..|t| - 1] + [t[|t| - 1]];
    }
  }

  lemma {:induction false} ValueIsNatural(s: string)
    requires forall i :: 0 <= i < |s| ==> '0' <= s[i] <= '9'
    ensures 0 <= ValueOf(s)
    ensures s != "" && s[0] != '0' ==> 0 < ValueOf(s)
  {
    if s != "" {
      ValueIsNatural(s[..|s| - 1]);
    }
  }

  /** The last digit, and the others if there are any. */
  lemma DecimalSplit(s: string, n: nat)
    requires IsDecimalOf(s, n)
    ensures s[|s| - 1] as int - '0' as int == n % 10
    ensures n < 10 ==> |s| == 1
    ensures n >= 10 ==> IsDecimalOf(s[..|s| - 1], n / 10)
  {
    var init, d := s[..|s| - 1], s[|s| - 1] as int - '0' as int;
    ValueIsNatural(init);
    assert n == 10 * ValueOf(init) + d && 0 <= d < 10;
    assert ValueOf(init) == n / 10 && d == n % 10;
    if init == "" {
      assert n < 10;
    } else {
      assert init[0] == s[0];
    }
  }

  lemma OneName(ifType: string, fs: seq<Field>, x: string, y: string)
    requires IsNameOf(ifType, fs, x) && IsNameOf(ifType, fs, y)
    ensures x == y
  {
    if !AllSilent(fs, "name", []) {
      var g := SomebodyIsLast(fs, "name", []);
      GettersMeaning(g);
      assert SaysText(g, GetString(g)) && SaysNumber(g, GetUint32(g));
      if GetString(g) == "" {
        var d :| IsDecimalOf(d, GetUint32(g)) && x == ifType + d;
        var e :| IsDecimalOf(e, GetUint32(g)) && y == ifType + e;
        OneDecimal(d, e, GetUint32(g));
      }
    }
  }

  /** The tree says all there is to say: an entry that follows it is the extracted one. */
  lemma OnlyEntryOfFollows(ifType: string, maskLen: string -> PrefixLen, fs: seq<Field>, e: IfEntry)
    ensures EntryFollowsTree(ifType, maskLen, fs, e) <==> e == EntryOf(ifType, maskLen, fs)
  {
    var x := EntryOf(ifType, maskLen, fs);
    EntryFollows(ifType, maskLen, fs);
    if EntryFollowsTree(ifType, maskLen, fs, e) {
      OneName(ifType, fs, e.name, x.name);
      OneText(fs, "description", [], None, e.description, x.description);
      OneText(fs, "ip", ["address", "primary", "address"], None, e.ipAddress, x.ipAddress);
      OneMask(maskLen, fs, None, e.prefixLen, x.prefixLen);
      OneVrf(fs, None, if e.vrf == "" then None else Some(e.vrf), if x.vrf == "" then None else Some(x.vrf));
      OneMtu(fs, None, if e.mtu == 0 then None else Some(e.mtu), if x.mtu == 0 then None else Some(x.mtu));
      OneVlan(fs, ["access", "vlan", "vlan"], None, e.accessVlan, x.accessVlan);
      OneVlan(fs, ["voice", "vlan", "vlan"], None, e.voiceVlan, x.voiceVlan);
    }
  }
}
