/** The interface-table and vlan-table messages as JSON objects: what the collector's struct tags encode and
    what the consumer's struct tags decode. An object is a map from keys to values (section 4 of RFC 8259). */
module Wire {
  import opened Options
  import Extract
  import VlanExtract
  import GuardedTables

  datatype Json = Null | Text(text: string) | Number(number: int) | Bool(flag: bool)

  type Object = map<string, Json>

  /** Timestamps count from Go's zero time. */
  const ZERO_TIME := 0

  // ---- Encoding --------------------------------------------------------------------------------------------------

  function TextOrNull(s: Option<string>): Json {
    if s.Some? then Text(s.value) else Null
  }

  function NumberOrNull(n: Option<int>): Json {
    if n.Some? then Number(n.value) else Null
  }

  /** A nil pointer becomes null, except where omitempty drops the key. */
  function EncodeInterface(time: int, nodeId: string, e: Extract.IfEntry): Object {
    map["timestamp" := Number(time), "node_id" := Text(nodeId), "name" := Text(e.name),
        "description" := TextOrNull(e.description), "shutdown" := Bool(e.shutdown),
        "ip_address" := TextOrNull(e.ipAddress), "prefix_len" := NumberOrNull(e.prefixLen),
        "access_vlan" := NumberOrNull(e.accessVlan), "voice_vlan" := NumberOrNull(e.voiceVlan)]
    + (if e.vrf != "" then map["vrf" := Text(e.vrf)] else map[])
    + (if e.mtu != 0 then map["mtu" := Number(e.mtu)] else map[])
  }

  function EncodeVlan(time: int, nodeId: string, e: VlanExtract.VlanEntry): Object {
    map["timestamp" := Number(time), "node_id" := Text(nodeId), "vlan_id" := Number(e.vlanId)]
    + (if e.name.Some? then map["name" := Text(e.name.value)] else map[])
    + (if e.status != "" then map["status" := Text(e.status)] else map[])
  }

  // ---- Decoding --------------------------------------------------------------------------------------------------

  datatype Decoded<T> = Mismatch | Ok(value: T)

  /** An absent key and an explicit null both leave the zero value behind. */
  function At(o: Object, key: string): Json {
    if key in o then o[key] else Null
  }

  function AsText(j: Json): Decoded<Option<string>> {
    match j
    case Null => Ok(None)
    case Text(s) => Ok(Some(s))
    case _ => Mismatch
  }

  function AsBool(j: Json): Decoded<Option<bool>> {
    match j
    case Null => Ok(None)
    case Bool(b) => Ok(Some(b))
    case _ => Mismatch
  }

  /** A number out of the range of the Go type is an error. */
  function AsNumber(j: Json, low: int, high: int): Decoded<Option<int>> {
    match j
    case Null => Ok(None)
    case Number(n) => if low <= n < high then Ok(Some(n)) else Mismatch
    case _ => Mismatch
  }

  function Plain<T>(d: Decoded<Option<T>>, zero: T): T {
    if d.Ok? && d.value.Some? then d.value.value else zero
  }

  const INT64: int := 0x8000_0000_0000_0000

  function AsTime(j: Json): Decoded<Option<int>> {
    match j
    case Null => Ok(None)
    case Number(n) => Ok(Some(n))
    case _ => Mismatch
  }

  function DecodeInterface(o: Object): Option<GuardedTables.IfEntry> {
    var time, nodeId, name := AsTime(At(o, "timestamp")), AsText(At(o, "node_id")), AsText(At(o, "name"));
    var description, shutdown := AsText(At(o, "description")), AsBool(At(o, "shutdown"));
    var ipAddress, prefixLen := AsText(At(o, "ip_address")), AsNumber(At(o, "prefix_len"), -INT64, INT64);
    var vrf, mtu := AsText(At(o, "vrf")), AsNumber(At(o, "mtu"), 0, 0x1_0000_0000);
    var accessVlan := AsNumber(At(o, "access_vlan"), 0, 0x1_0000);
    var voiceVlan := AsNumber(At(o, "voice_vlan"), 0, 0x1_0000);
    if time.Ok? && nodeId.Ok? && name.Ok? && description.Ok? && shutdown.Ok? && ipAddress.Ok? && prefixLen.Ok?
       && vrf.Ok? && mtu.Ok? && accessVlan.Ok? && voiceVlan.Ok?
    then
      Some(GuardedTables.IfEntry(Plain(time, ZERO_TIME), Plain(nodeId, ""), Plain(name, ""), description.value,
                                 shutdown.value, ipAddress.value, prefixLen.value, vrf.value, mtu.value,
                                 accessVlan.value, voiceVlan.value))
    else None
  }

  function DecodeVlan(o: Object): Option<GuardedTables.VlanEntry> {
    var time, nodeId := AsTime(At(o, "timestamp")), AsText(At(o, "node_id"));
    var vlanId := AsNumber(At(o, "vlan_id"), 0, 0x1_0000_0000);
    var name, status := AsText(At(o, "name")), AsText(At(o, "status"));
    if time.Ok? && nodeId.Ok? && vlanId.Ok? && name.Ok? && status.Ok?
    then Some(GuardedTables.VlanEntry(Plain(time, ZERO_TIME), Plain(nodeId, ""), Plain(vlanId, 0), name.value, Plain(status, "")))
    else None
  }

  // ---- Round trips -----------------------------------------------------------------------------------------------

  function Received(time: int, nodeId: string, e: Extract.IfEntry): GuardedTables.IfEntry {
    GuardedTables.IfEntry(time, nodeId, e.name, e.description, Some(e.shutdown), e.ipAddress, e.prefixLen,
                          if e.vrf == "" then None else Some(e.vrf), if e.mtu == 0 then None else Some(e.mtu),
                          e.accessVlan, e.voiceVlan)
  }

  /** What the decoder finds under each key of an encoded interface. */
  lemma TextKeys(time: int, nodeId: string, e: Extract.IfEntry)
    ensures At(EncodeInterface(time, nodeId, e), "node_id") == Text(nodeId)
    ensures At(EncodeInterface(time, nodeId, e), "name") == Text(e.name)
    ensures At(EncodeInterface(time, nodeId, e), "description") == TextOrNull(e.description)
    ensures At(EncodeInterface(time, nodeId, e), "ip_address") == TextOrNull(e.ipAddress)
  {
  }

  lemma NumberKeys(time: int, nodeId: string, e: Extract.IfEntry)
    ensures At(EncodeInterface(time, nodeId, e), "timestamp") == Number(time)
    ensures At(EncodeInterface(time, nodeId, e), "prefix_len") == NumberOrNull(e.prefixLen)
    ensures At(EncodeInterface(time, nodeId, e), "access_vlan") == NumberOrNull(e.accessVlan)
    ensures At(EncodeInterface(time, nodeId, e), "voice_vlan") == NumberOrNull(e.voiceVlan)
  {
  }

  lemma OtherKeys(time: int, nodeId: string, e: Extract.IfEntry)
    ensures At(EncodeInterface(time, nodeId, e), "shutdown") == Bool(e.shutdown)
    ensures At(EncodeInterface(time, nodeId, e), "vrf") == if e.vrf == "" then Null else Text(e.vrf)
    ensures At(EncodeInterface(time, nodeId, e), "mtu") == if e.mtu == 0 then Null else Number(e.mtu)
  {
  }

  /** Every three-state field arrives in the state it left in; shutdown is always present; only an empty vrf
      and a zero mtu arrive as absent. */
  lemma InterfaceRoundTrip(time: int, nodeId: string, e: Extract.IfEntry)
    requires Extract.InRange(e)
    ensures DecodeInterface(EncodeInterface(time, nodeId, e)) == Some(Received(time, nodeId, e))
  {
    TextKeys(time, nodeId, e);
    NumberKeys(time, nodeId, e);
    OtherKeys(time, nodeId, e);
  }

  lemma VlanRoundTrip(time: int, nodeId: string, e: VlanExtract.VlanEntry)
    ensures DecodeVlan(EncodeVlan(time, nodeId, e)) ==
            Some(GuardedTables.VlanEntry(time, nodeId, e.vlanId, e.name, e.status))
  {
    var o := EncodeVlan(time, nodeId, e);
    assert At(o, "timestamp") == Number(time);
    assert At(o, "node_id") == Text(nodeId);
    assert At(o, "vlan_id") == Number(e.vlanId);
    assert At(o, "name") == TextOrNull(e.name);
    assert At(o, "status") == if e.status == "" then Null else Text(e.status);
  }

  // ---- The objects themselves ------------------------------------------------------------------------------------

  /** The keys of an interface message: a nil pointer is sent as an explicit null, and only an empty vrf and a
      zero mtu are left out. */
  lemma InterfaceOnTheWire(time: int, nodeId: string, e: Extract.IfEntry)
    ensures var o := EncodeInterface(time, nodeId, e);
            && o.Keys == {"timestamp", "node_id", "name", "description", "shutdown", "ip_address", "prefix_len",
                          "access_vlan", "voice_vlan"}
                         + (if e.vrf != "" then {"vrf"} else {}) + (if e.mtu != 0 then {"mtu"} else {})
            && o["description"] == (if e.description.Some? then Text(e.description.value) else Null)
            && o["ip_address"] == (if e.ipAddress.Some? then Text(e.ipAddress.value) else Null)
            && o["prefix_len"] == (if e.prefixLen.Some? then Number(e.prefixLen.value) else Null)
            && o["access_vlan"] == (if e.accessVlan.Some? then Number(e.accessVlan.value) else Null)
            && o["voice_vlan"] == (if e.voiceVlan.Some? then Number(e.voiceVlan.value) else Null)
  {
    TextKeys(time, nodeId, e);
    NumberKeys(time, nodeId, e);
  }

  /** The keys of a VLAN message: a nil name and an empty status are left out. */
  lemma VlanOnTheWire(time: int, nodeId: string, e: VlanExtract.VlanEntry)
    ensures EncodeVlan(time, nodeId, e).Keys ==
            {"timestamp", "node_id", "vlan_id"} + (if e.name.Some? then {"name"} else {})
            + (if e.status != "" then {"status"} else {})
  {
  }

  /** The key holds this text; None stands for a missing key or an explicit null. */
  predicate HasText(o: Object, key: string, v: Option<string>) {
    if v.Some? then key in o && o[key] == Text(v.value) else key !in o || o[key] == Null
  }

  predicate HasFlag(o: Object, key: string, v: Option<bool>) {
    if v.Some? then key in o && o[key] == Bool(v.value) else key !in o || o[key] == Null
  }

  predicate HasNumber(o: Object, key: string, v: Option<int>, low: int, high: int) {
    if v.Some? then key in o && o[key] == Number(v.value) && low <= v.value < high else key !in o || o[key] == Null
  }

  predicate HasPlainText(o: Object, key: string, s: string) {
    HasText(o, key, Some(s)) || (s == "" && HasText(o, key, None))
  }

  predicate HasTime(o: Object, time: int) {
    ("timestamp" in o && o["timestamp"] == Number(time)) || (time == 0 && HasText(o, "timestamp", None))
  }

  lemma AsTextIff(o: Object, key: string, v: Option<string>)
    ensures AsText(At(o, key)) == Ok(v) <==> HasText(o, key, v)
  {
  }

  lemma AsNumberIff(o: Object, key: string, low: int, high: int, v: Option<int>)
    ensures AsNumber(At(o, key), low, high) == Ok(v) <==> HasNumber(o, key, v, low, high)
  {
  }

  lemma PlainTextIff(o: Object, key: string, s: string)
    ensures var d := AsText(At(o, key)); d.Ok? && Plain(d, "") == s <==> HasPlainText(o, key, s)
  {
  }

  lemma TimeIff(o: Object, time: int)
    ensures var d := AsTime(At(o, "timestamp")); d.Ok? && Plain(d, ZERO_TIME) == time <==> HasTime(o, time)
  {
  }

  ghost predicate InterfaceTexts(o: Object, e: GuardedTables.IfEntry) {
    && HasTime(o, e.time) && HasPlainText(o, "node_id", e.nodeId) && HasPlainText(o, "name", e.name)
    && HasText(o, "description", e.description) && HasFlag(o, "shutdown", e.shutdown)
    && HasText(o, "ip_address", e.ipAddress) && HasText(o, "vrf", e.vrf)
  }

  ghost predicate InterfaceNumbers(o: Object, e: GuardedTables.IfEntry) {
    && HasNumber(o, "prefix_len", e.prefixLen, -0x8000_0000_0000_0000, 0x8000_0000_0000_0000)
    && HasNumber(o, "mtu", e.mtu, 0, 0x1_0000_0000)
    && HasNumber(o, "access_vlan", e.accessVlan, 0, 0x1_0000)
    && HasNumber(o, "voice_vlan", e.voiceVlan, 0, 0x1_0000)
  }

  lemma InterfaceTextsIff(o: Object, e: GuardedTables.IfEntry)
    ensures InterfaceTexts(o, e) <==>
            var time, nodeId, name := AsTime(At(o, "timestamp")), AsText(At(o, "node_id")), AsText(At(o, "name"));
            && time.Ok? && Plain(time, ZERO_TIME) == e.time && nodeId.Ok? && Plain(nodeId, "") == e.nodeId
            && name.Ok? && Plain(name, "") == e.name
            && AsText(At(o, "description")) == Ok(e.description) && AsBool(At(o, "shutdown")) == Ok(e.shutdown)
            && AsText(At(o, "ip_address")) == Ok(e.ipAddress) && AsText(At(o, "vrf")) == Ok(e.vrf)
  {
    TimeIff(o, e.time);
    PlainTextIff(o, "node_id", e.nodeId);
    PlainTextIff(o, "name", e.name);
    AsTextIff(o, "description", e.description);
    AsTextIff(o, "ip_address", e.ipAddress);
    AsTextIff(o, "vrf", e.vrf);
  }

  /** Exactly which objects decode, and to what: every key holds a value of its type and range, or null, or is
      missing, and the entry says which; any other object is an error. */
  lemma DecodedInterfaceIff(o: Object, e: GuardedTables.IfEntry)
    ensures DecodeInterface(o) == Some(e) <==> InterfaceTexts(o, e) && InterfaceNumbers(o, e)
  {
    InterfaceTextsIff(o, e);
    AsNumberIff(o, "prefix_len", -INT64, INT64, e.prefixLen);
    AsNumberIff(o, "mtu", 0, 0x1_0000_0000, e.mtu);
    AsNumberIff(o, "access_vlan", 0, 0x1_0000, e.accessVlan);
    AsNumberIff(o, "voice_vlan", 0, 0x1_0000, e.voiceVlan);
  }

  lemma DecodedVlanIff(o: Object, e: GuardedTables.VlanEntry)
    ensures DecodeVlan(o) == Some(e) <==>
            && HasTime(o, e.time) && HasPlainText(o, "node_id", e.nodeId)
            && (HasNumber(o, "vlan_id", Some(e.vlanId), 0, 0x1_0000_0000)
                || (e.vlanId == 0 && HasNumber(o, "vlan_id", None, 0, 0x1_0000_0000)))
            && HasText(o, "name", e.name) && HasPlainText(o, "status", e.status)
  {
    TimeIff(o, e.time);
    PlainTextIff(o, "node_id", e.nodeId);
    PlainTextIff(o, "status", e.status);
    AsTextIff(o, "name", e.name);
    AsNumberIff(o, "vlan_id", 0, 0x1_0000_0000, Some(e.vlanId));
  }
}
