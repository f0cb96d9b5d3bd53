/** What publishInterface reads out of an interface node: the switch inside a loop over the node's fields,
    and the reading of each column that this amounts to. */
module Extract {
  import opened Options
  import opened Telemetry
  import opened Readings

  type PrefixLen = n: int | 0 <= n <= 32

  // ---- findNestedField --------------------------------------------------------------------------------------------

  predicate Named(f: Field, name: string) {
    StripModule(f.name) == name
  }

  /** The position of the first field, from position `from` on, whose stripped name is `name`. */
  function FirstIndex(fs: seq<Field>, name: string, from: nat): (r: nat)
    requires from <= |fs|
    ensures from <= r <= |fs|
    ensures r < |fs| ==> Named(fs[r], name)
    ensures forall j :: from <= j < r ==> !Named(fs[j], name)
    decreases |fs| - from
  {
    if from == |fs| || Named(fs[from], name) then from else FirstIndex(fs, name, from + 1)
  }

  function FirstNamed(fs: seq<Field>, name: string): Option<Field> {
    var i := FirstIndex(fs, name, 0);
    if i < |fs| then Some(fs[i]) else None
  }

  /** Following the path, at every step through the first field of that name. */
  function FindNested(fs: seq<Field>, path: seq<string>): Option<Field>
    decreases |path|
  {
    if path == [] then None
    else
      var found := FirstNamed(fs, path[0]);
      if found.None? || |path| == 1 then found else FindNested(found.value.fields, path[1..])
  }

  /** The inner loop: a linear search that stops at the first match. */
  method FindFirst(fs: seq<Field>, name: string) returns (found: Option<Field>)
    ensures found == FirstNamed(fs, name)
  {
    found := None;
    for j := 0 to |fs|
      invariant found.None?
      invariant forall l :: 0 <= l < j ==> !Named(fs[l], name)
    {
      if Named(fs[j], name) {
        return Some(fs[j]);
      }
    }
  }

  method FindNestedField(fields: seq<Field>, path: seq<string>) returns (r: Option<Field>)
    ensures r == FindNested(fields, path)
  {
    var cur := fields;
    for i := 0 to |path|
      invariant FindNested(fields, path) == FindNested(cur, path[i..])
    {
      var found := FindFirst(cur, path[i]);
      if found.None? {
        return None;
      }
      if i == |path| - 1 {
        return found;
      }
      assert path[i..][1..] == path[i + 1..];
      cur := found.value.fields;
    }
    return None;
  }

  // ---- The readings ----------------------------------------------------------------------------------------------

  function Decimal(n: nat): (s: string)
    ensures s != ""
  {
    if n < 10 then [('0' as int + n) as char] else Decimal(n / 10) + [('0' as int + n % 10) as char]
  }

  /** The number a string of decimal digits stands for. */
  function ValueOf(s: string): int {
    if s == "" then 0 else 10 * ValueOf(s[..|s| - 1]) + (s[|s| - 1] as int - '0' as int)
  }

  ghost predicate IsDecimalOf(s: string, n: nat) {
    && s != "" && (forall i :: 0 <= i < |s| ==> '0' <= s[i] <= '9')
    && (|s| > 1 ==> s[0] != '0')
    && ValueOf(s) == n
  }

  /** %d writes a number in decimal digits, without leading zeros. */
  lemma {:induction false} DecimalMeaning(n: nat)
    ensures IsDecimalOf(Decimal(n), n)
    ensures n > 0 ==> Decimal(n)[0] != '0'
  {
    if n >= 10 {
      DecimalMeaning(n / 10);
      var init, last := Decimal(n / 10), ('0' as int + n % 10) as char;
      assert Decimal(n)[..|Decimal(n)| - 1] == init;
    } else {
      assert Decimal(n)[..0] == "";
    }
  }

  /** A field the loop looks at: not a chain link, and with exactly this name. */
  predicate Is(f: Field, name: string) {
    f.name == name && !IsIface(f)
  }

  function Text(f: Option<Field>): Option<string> {
    if f.Some? then Some(GetString(f.value)) else None
  }

  function Vlan(f: Option<Field>): Option<int> {
    if f.Some? then Some(GetUint32(f.value) % 0x1_0000) else None
  }

  function ReadName(ifType: string, f: Field): Option<string> {
    if !Is(f, "name") then None
    else if GetString(f) != "" then Some(ifType + GetString(f))
    else Some(ifType + Decimal(GetUint32(f)))
  }

  function ReadDescription(f: Field): Option<string> {
    if Is(f, "description") then Some(GetString(f)) else None
  }

  function ReadMtu(f: Field): Option<UInt32> {
    if Is(f, "mtu") then Some(GetUint32(f)) else None
  }

  function ReadShutdown(f: Field): Option<bool> {
    if Is(f, "shutdown") then Some(true) else None
  }

  function ReadVrf(f: Field): Option<string> {
    if Is(f, "vrf") then Text(FindNested(f.fields, ["forwarding"])) else None
  }

  function ReadAddress(f: Field): Option<string> {
    if Is(f, "ip") then Text(FindNested(f.fields, ["address", "primary", "address"])) else None
  }

  /** maskToPrefixLen is decided by a foreign library: it is a parameter. */
  function ReadPrefix(maskLen: string -> PrefixLen, f: Field): Option<int> {
    if !Is(f, "ip") then None
    else
      var mask := FindNested(f.fields, ["address", "primary", "mask"]);
      if mask.Some? then Some(maskLen(GetString(mask.value))) else None
  }

  function NameReader(ifType: string): Field -> Option<string> {
    f => ReadName(ifType, f)
  }

  function PrefixReader(maskLen: string -> PrefixLen): Field -> Option<int> {
    f => ReadPrefix(maskLen, f)
  }

  function ReadConfigVoice(f: Field): Option<int> {
    if Is(f, "switchport-config") then Vlan(FindNested(f.fields, ["switchport", "voice", "vlan", "vlan"])) else None
  }

  function ReadConfigAccess(f: Field): Option<int> {
    if Is(f, "switchport-config") then Vlan(FindNested(f.fields, ["switchport", "access", "vlan", "vlan"])) else None
  }

  function ReadBareVoice(f: Field): Option<int> {
    if Is(f, "switchport") then Vlan(FindNested(f.fields, ["voice", "vlan", "vlan"])) else None
  }

  function ReadBareAccess(f: Field): Option<int> {
    if Is(f, "switchport") then Vlan(FindNested(f.fields, ["access", "vlan", "vlan"])) else None
  }

  // ---- The entry -------------------------------------------------------------------------------------------------

  datatype IfEntry = IfEntry(
    name: string,
    description: Option<string>,
    shutdown: bool,
    ipAddress: Option<string>,
    prefixLen: Option<int>,
    vrf: string,
    mtu: UInt32,
    accessVlan: Option<int>,
    voiceVlan: Option<int>)

  /** The ranges of the Go types: uint16 for the VLANs, and what a mask can yield. */
  predicate InRange(e: IfEntry) {
    && (e.prefixLen.Some? ==> 0 <= e.prefixLen.value <= 32)
    && (e.accessVlan.Some? ==> 0 <= e.accessVlan.value < 0x1_0000)
    && (e.voiceVlan.Some? ==> 0 <= e.voiceVlan.value < 0x1_0000)
  }

  const EMPTY: IfEntry := IfEntry("", None, false, None, None, "", 0, None, None)

  function Or<T>(a: Option<T>, b: Option<T>): Option<T> {
    if a.Some? then a else b
  }

  function Default<T>(a: Option<T>, d: T): T {
    if a.Some? then a.value else d
  }

  /** What the fields say, column by column: the last reading wins, except that the bare switchport
      container only speaks, first come first served, when no switchport-config does. */
  function EntryOf(ifType: string, maskLen: string -> PrefixLen, fs: seq<Field>): IfEntry {
    IfEntry(
      Default(LastSome(fs, NameReader(ifType)), ""),
      LastSome(fs, ReadDescription),
      LastSome(fs, ReadShutdown).Some?,
      LastSome(fs, ReadAddress),
      LastSome(fs, PrefixReader(maskLen)),
      Default(LastSome(fs, ReadVrf), ""),
      Default(LastSome(fs, ReadMtu), 0),
      Or(LastSome(fs, ReadConfigAccess), FirstSome(fs, ReadBareAccess)),
      Or(LastSome(fs, ReadConfigVoice), FirstSome(fs, ReadBareVoice)))
  }

  ghost predicate ReadsBelow(read: Field -> Option<int>, bound: int) {
    forall f :: read(f).Some? ==> 0 <= read(f).value < bound
  }

  lemma ReadingInRange(fs: seq<Field>, read: Field -> Option<int>, bound: int)
    requires ReadsBelow(read, bound)
    ensures LastSome(fs, read).Some? ==> 0 <= LastSome(fs, read).value < bound
    ensures FirstSome(fs, read).Some? ==> 0 <= FirstSome(fs, read).value < bound
  {
    LastSomeIsARead(fs, read);
    FirstSomeIsARead(fs, read);
  }

  lemma EntryInRange(ifType: string, maskLen: string -> PrefixLen, fs: seq<Field>)
    ensures InRange(EntryOf(ifType, maskLen, fs))
  {
    ReadingInRange(fs, PrefixReader(maskLen), 33);
    ReadingInRange(fs, ReadConfigAccess, 0x1_0000);
    ReadingInRange(fs, ReadConfigVoice, 0x1_0000);
    ReadingInRange(fs, ReadBareAccess, 0x1_0000);
    ReadingInRange(fs, ReadBareVoice, 0x1_0000);
  }

  /** An interface node goes unpublished exactly when none of its data fields is called "name" without a module
      prefix, although a prefixed name is enough to make it an interface node. */
  lemma UnpublishedIff(ifType: string, maskLen: string -> PrefixLen, fs: seq<Field>)
    ensures EntryOf(ifType, maskLen, fs).name == "" <==> forall f :: f in fs ==> !Is(f, "name")
  {
    LastSomeIsARead(fs, NameReader(ifType));
  }

  /** What one more field changes. */
  function Overlay(ifType: string, maskLen: string -> PrefixLen, e: IfEntry, f: Field): IfEntry {
    IfEntry(
      Default(ReadName(ifType, f), e.name),
      Or(ReadDescription(f), e.description),
      e.shutdown || ReadShutdown(f).Some?,
      Or(ReadAddress(f), e.ipAddress),
      Or(ReadPrefix(maskLen, f), e.prefixLen),
      Default(ReadVrf(f), e.vrf),
      Default(ReadMtu(f), e.mtu),
      Or(ReadConfigAccess(f), Or(e.accessVlan, ReadBareAccess(f))),
      Or(ReadConfigVoice(f), Or(e.voiceVlan, ReadBareVoice(f))))
  }

  lemma SnocReads<T>(fs: seq<Field>, f: Field, read: Field -> Option<T>)
    ensures LastSome(fs + [f], read) == Or(read(f), LastSome(fs, read))
    ensures FirstSome(fs + [f], read) == Or(FirstSome(fs, read), read(f))
  {
    OneRead(f, read);
    LastSomeAppend(fs, [f], read);
    FirstSomeAppend(fs, [f], read);
  }

  lemma SnocVlan(fs: seq<Field>, f: Field, config: Field -> Option<int>, bare: Field -> Option<int>)
    ensures Or(LastSome(fs + [f], config), FirstSome(fs + [f], bare)) ==
            Or(config(f), Or(Or(LastSome(fs, config), FirstSome(fs, bare)), bare(f)))
  {
    SnocReads(fs, f, config);
    SnocReads(fs, f, bare);
  }

  lemma EntrySnoc(ifType: string, maskLen: string -> PrefixLen, fs: seq<Field>, f: Field)
    ensures EntryOf(ifType, maskLen, fs + [f]) == Overlay(ifType, maskLen, EntryOf(ifType, maskLen, fs), f)
  {
    SnocReads(fs, f, NameReader(ifType));
    SnocReads(fs, f, ReadDescription);
    SnocReads(fs, f, ReadShutdown);
    SnocReads(fs, f, ReadAddress);
    SnocReads(fs, f, PrefixReader(maskLen));
    SnocReads(fs, f, ReadVrf);
    SnocReads(fs, f, ReadMtu);
    SnocVlan(fs, f, ReadConfigAccess, ReadBareAccess);
    SnocVlan(fs, f, ReadConfigVoice, ReadBareVoice);
  }

  /** The switch of the extraction loop. */
  method ApplyField(ifType: string, maskLen: string -> PrefixLen, entry: IfEntry, f: Field) returns (e: IfEntry)
    ensures e == Overlay(ifType, maskLen, entry, f)
  {
    e := entry;
    if IsIface(f) {
      return;
    }
    if f.name == "name" {
      var sv := GetString(f);
      if sv != "" {
        e := e.(name := ifType + sv);
      } else {
        e := e.(name := ifType + Decimal(GetUint32(f)));
      }
    } else if f.name == "description" {
      e := e.(description := Some(GetString(f)));
    } else if f.name == "mtu" {
      e := e.(mtu := GetUint32(f));
    } else if f.name == "shutdown" {
      e := e.(shutdown := true);
    } else if f.name == "vrf" {
      var fw := FindNestedField(f.fields, ["forwarding"]);
      if fw.Some? {
        e := e.(vrf := GetString(fw.value));
      }
    } else if f.name == "ip" {
      var addr := FindNestedField(f.fields, ["address", "primary", "address"]);
      if addr.Some? {
        e := e.(ipAddress := Some(GetString(addr.value)));
      }
      var mask := FindNestedField(f.fields, ["address", "primary", "mask"]);
      if mask.Some? {
        e := e.(prefixLen := Some(maskLen(GetString(mask.value))));
      }
    } else if f.name == "switchport-config" {
      var v := FindNestedField(f.fields, ["switchport", "voice", "vlan", "vlan"]);
      if v.Some? {
        e := e.(voiceVlan := Some(GetUint32(v.value) % 0x1_0000));
      }
      var a := FindNestedField(f.fields, ["switchport", "access", "vlan", "vlan"]);
      if a.Some? {
        e := e.(accessVlan := Some(GetUint32(a.value) % 0x1_0000));
      }
    } else if f.name == "switchport" {
      if e.voiceVlan.None? {
        var v := FindNestedField(f.fields, ["voice", "vlan", "vlan"]);
        if v.Some? {
          e := e.(voiceVlan := Some(GetUint32(v.value) % 0x1_0000));
        }
      }
      if e.accessVlan.None? {
        var a := FindNestedField(f.fields, ["access", "vlan", "vlan"]);
        if a.Some? {
          e := e.(accessVlan := Some(GetUint32(a.value) % 0x1_0000));
        }
      }
    }
  }

  /** The extraction loop: whatever the order and the number of the fields, it computes the column-by-column
      reading. */
  method ExtractEntry(iface: Field, maskLen: string -> PrefixLen) returns (entry: IfEntry)
    ensures entry == EntryOf(iface.name, maskLen, iface.fields)
  {
    ghost var want := (i: nat) requires i <= |iface.fields| => EntryOf(iface.name, maskLen, iface.fields[..i]);
    entry := EMPTY;
    for i := 0 to |iface.fields|
      invariant entry == want(i)
    {
      EntrySnoc(iface.name, maskLen, iface.fields[..i], iface.fields[i]);
      assert iface.fields[..i + 1] == iface.fields[..i] + [iface.fields[i]];
      entry := ApplyField(iface.name, maskLen, entry, iface.fields[i]);
    }
    assert iface.fields[..|iface.fields|] == iface.fields;
  }

  // ---- Order of the fields -----------------------------------------------------------------------------------------

  const HANDLED: set<string> :=
    {"name", "description", "mtu", "shutdown", "vrf", "ip", "switchport-config", "switchport"}

  /** At most one data field per handled name. */
  ghost predicate OnePerName(fs: seq<Field>) {
    forall i, j :: 0 <= i < j < |fs| && !IsIface(fs[i]) && !IsIface(fs[j]) && fs[i].name in HANDLED ==>
                     fs[i].name != fs[j].name
  }

  /** A reading that only looks at fields of one handled name. */
  ghost predicate ReadsOnly<T>(read: Field -> Option<T>, name: string) {
    name in HANDLED && forall f :: read(f).Some? ==> Is(f, name)
  }

  lemma OnePerNameAgrees<T>(fs: seq<Field>, read: Field -> Option<T>, name: string)
    requires OnePerName(fs) && ReadsOnly(read, name)
    ensures Agreeing(fs, read)
  {
    forall x, y | x in fs && y in fs && read(x).Some? && read(y).Some?
      ensures read(x) == read(y)
    {
      var i :| 0 <= i < |fs| && fs[i] == x;
      var j :| 0 <= j < |fs| && fs[j] == y;
      assert Is(x, name) && Is(y, name);
    }
  }

  lemma OneReadingIgnoresOrder<T>(fs: seq<Field>, gs: seq<Field>, read: Field -> Option<T>, name: string)
    requires OnePerName(fs) && ReadsOnly(read, name) && multiset(fs) == multiset(gs)
    ensures LastSome(gs, read) == LastSome(fs, read) && FirstSome(gs, read) == FirstSome(fs, read)
  {
    OnePerNameAgrees(fs, read, name);
    SameElements(fs, gs);
    AgreeingReadsIgnoreOrder(fs, gs, read);
  }

  /** With at most one field per handled name, no permutation of a node's fields, chain links included,
      changes its entry. */
  lemma EntryIgnoresFieldOrder(ifType: string, maskLen: string -> PrefixLen, fs: seq<Field>, gs: seq<Field>)
    requires OnePerName(fs) && multiset(fs) == multiset(gs)
    ensures EntryOf(ifType, maskLen, gs) == EntryOf(ifType, maskLen, fs)
  {
    OneReadingIgnoresOrder(fs, gs, NameReader(ifType), "name");
    OneReadingIgnoresOrder(fs, gs, ReadDescription, "description");
    OneReadingIgnoresOrder(fs, gs, ReadShutdown, "shutdown");
    OneReadingIgnoresOrder(fs, gs, ReadAddress, "ip");
    OneReadingIgnoresOrder(fs, gs, PrefixReader(maskLen), "ip");
    OneReadingIgnoresOrder(fs, gs, ReadVrf, "vrf");
    OneReadingIgnoresOrder(fs, gs, ReadMtu, "mtu");
    OneReadingIgnoresOrder(fs, gs, ReadConfigAccess, "switchport-config");
    OneReadingIgnoresOrder(fs, gs, ReadConfigVoice, "switchport-config");
    OneReadingIgnoresOrder(fs, gs, ReadBareAccess, "switchport");
    OneReadingIgnoresOrder(fs, gs, ReadBareVoice, "switchport");
  }

  /** A VLAN that switchport-config carries wins over the bare switchport container, on whichever side of it
      the container stands. */
  lemma ConfigWins(ifType: string, maskLen: string -> PrefixLen, fs: seq<Field>, config: Field)
    requires OnePerName(fs) && config in fs
    ensures ReadConfigAccess(config).Some? ==> EntryOf(ifType, maskLen, fs).accessVlan == ReadConfigAccess(config)
    ensures ReadConfigVoice(config).Some? ==> EntryOf(ifType, maskLen, fs).voiceVlan == ReadConfigVoice(config)
  {
    OnePerNameAgrees(fs, ReadConfigAccess, "switchport-config");
    OnePerNameAgrees(fs, ReadConfigVoice, "switchport-config");
    LastSomeIsARead(fs, ReadConfigAccess);
    LastSomeIsARead(fs, ReadConfigVoice);
  }

  /** Chain links are invisible to the extraction, wherever they sit. */
  lemma LinkIsInvisible(ifType: string, maskLen: string -> PrefixLen, a: seq<Field>, link: Field, b: seq<Field>)
    requires IsIface(link)
    ensures EntryOf(ifType, maskLen, a + [link] + b) == EntryOf(ifType, maskLen, a + b)
  {
    SilentFieldSkipped(a, link, b, NameReader(ifType));
    SilentFieldSkipped(a, link, b, ReadDescription);
    SilentFieldSkipped(a, link, b, ReadShutdown);
    SilentFieldSkipped(a, link, b, ReadAddress);
    SilentFieldSkipped(a, link, b, PrefixReader(maskLen));
    SilentFieldSkipped(a, link, b, ReadVrf);
    SilentFieldSkipped(a, link, b, ReadMtu);
    SilentFieldSkipped(a, link, b, ReadConfigAccess);
    SilentFieldSkipped(a, link, b, ReadConfigVoice);
    SilentFieldSkipped(a, link, b, ReadBareAccess);
    SilentFieldSkipped(a, link, b, ReadBareVoice);
  }
}
