/** The search handler around the query: classifying terms, building duplicate-free query lists with one shared
    `seen` map, resolving host names, and accounting for what was not found. */
module SearchHandler {
  import opened Options
  import opened MacAddress
  import opened SearchSql

  // ---- Terms -----------------------------------------------------------------------------------------------------

  predicate IsDigit(c: char) { '0' <= c <= '9' }

  /** s[lo..hi] is one to three decimal digits. */
  predicate IsOctet(s: string, lo: nat, hi: nat)
    requires lo <= hi <= |s|
  {
    1 <= hi - lo <= 3 && forall p :: lo <= p < hi ==> IsDigit(s[p])
  }

  /** Four groups of digits around three dots. */
  predicate IPRe(s: string) {
    exists i, j, k :: 0 <= i < j < k < |s| && DotsAt(s, i, j, k)
  }

  predicate DotsAt(s: string, i: nat, j: nat, k: nat)
    requires i < j < k < |s|
  {
    && s[i] == '.' && s[j] == '.' && s[k] == '.'
    && IsOctet(s, 0, i) && IsOctet(s, i + 1, j) && IsOctet(s, j + 1, k) && IsOctet(s, k + 1, |s|)
  }

  /** The letters of a case-insensitive [a-z]: under Unicode folding two more characters belong to it. */
  predicate IsFoldedLetter(c: char) {
    'a' <= LowerChar(c) <= 'z' || c == '\U{017F}' || c == '\U{212A}'
  }

  predicate HostRe(s: string) {
    && s != "" && IsFoldedLetter(s[0])
    && forall i :: 0 <= i < |s| ==> IsFoldedLetter(s[i]) || IsDigit(s[i]) || s[i] == '-' || s[i] == '.'
  }

  predicate IsSpace(c: char) {
    c in {'\U{09}', '\U{0A}', '\U{0B}', '\U{0C}', '\U{0D}', ' ', '\U{85}', '\U{A0}', '\U{1680}', '\U{2028}', '\U{2029}',
          '\U{202F}', '\U{205F}', '\U{3000}'}
    || '\U{2000}' <= c <= '\U{200A}'
  }

  function TrimLeft(s: string): string {
    if s != "" && IsSpace(s[0]) then TrimLeft(s[1..]) else s
  }

  function TrimRight(s: string): string {
    if s != "" && IsSpace(s[|s| - 1]) then TrimRight(s[..|s| - 1]) else s
  }

  function Trim(s: string): string {
    TrimRight(TrimLeft(s))
  }

  /** Unicode's White_Space property, by code point. */
  lemma IsSpaceIff(c: char)
    ensures IsSpace(c) <==>
            var u := c as int;
            || 9 <= u <= 13 || u == 32 || u == 133 || u == 160 || u == 5760
            || 8192 <= u <= 8202 || u == 8232 || u == 8233 || u == 8239 || u == 8287 || u == 12288
  {
  }

  lemma {:induction false} TrimLeftMeaning(s: string) returns (i: nat)
    ensures i <= |s| && TrimLeft(s) == s[i..]
    ensures forall p :: 0 <= p < i ==> IsSpace(s[p])
    ensures i < |s| ==> !IsSpace(s[i])
  {
    i := 0;
    if s != "" && IsSpace(s[0]) {
      var j := TrimLeftMeaning(s[1..]);
      i := j + 1;
      assert forall p :: 1 <= p < |s| ==> s[p] == s[1..][p - 1];
    }
  }

  lemma {:induction false} TrimRightMeaning(s: string) returns (j: nat)
    ensures j <= |s| && TrimRight(s) == s[..j]
    ensures forall p :: j <= p < |s| ==> IsSpace(s[p])
    ensures j > 0 ==> !IsSpace(s[j - 1])
  {
    j := |s|;
    if s != "" && IsSpace(s[|s| - 1]) {
      j := TrimRightMeaning(s[..|s| - 1]);
    }
  }

  /** TrimSpace keeps everything between the first and the last character that is no white space. */
  lemma TrimMeaning(s: string) returns (i: nat, j: nat)
    ensures i <= j <= |s| && Trim(s) == s[i..j]
    ensures forall p :: 0 <= p < |s| && !(i <= p < j) ==> IsSpace(s[p])
    ensures i < j ==> !IsSpace(s[i]) && !IsSpace(s[j - 1])
  {
    i := TrimLeftMeaning(s);
    var n := TrimRightMeaning(s[i..]);
    j := i + n;
    assert forall p :: i <= p < |s| ==> s[p] == s[i..][p - i];
  }

  datatype Kind = Mac | Ip | Hostname

  /** In the order in which the handler tries them; None is skipped. */
  function Classify(t: string): Option<Kind> {
    if t == "" then None
    else if MacRe(t) then Some(Mac)
    else if IPRe(t) then Some(Ip)
    else if HostRe(t) then Some(Hostname)
    else None
  }

  /** An IP is neither a MAC nor a host name. */
  lemma IpIsNothingElse(s: string)
    requires IPRe(s)
    ensures !MacRe(s) && !HostRe(s)
  {
    var i, j, k :| 0 <= i < j < k < |s| && DotsAt(s, i, j, k);
    assert IsDigit(s[0]);
    assert !IsHex(s[i]) && !IsHex(s[j]) && !IsHex(s[k]);
  }

  /** The value lists a term is looked up by before host names are resolved. */
  function Forms(t: string, kind: Kind): seq<string> {
    match kind
    case Mac => Normal(t)
    case Ip => [t]
    case Hostname => [t]
  }

  /** Look-up values of different kinds never coincide, so one `seen` map serves all three lists. */
  lemma KindsDoNotShareValues(t: string, u: string, x: string)
    requires Classify(t).Some? && Classify(u).Some?
    requires x in Forms(t, Classify(t).value) && x in Forms(u, Classify(u).value)
    ensures Classify(t) == Classify(u)
    ensures Classify(x) == Classify(t)
  {
    FormKeepsKind(t, x);
    FormKeepsKind(u, x);
  }

  lemma FormKeepsKind(t: string, x: string)
    requires Classify(t).Some? && x in Forms(t, Classify(t).value)
    ensures Classify(x) == Classify(t)
  {
    if MacRe(t) {
      FormsAreFixed(t);
    }
  }

  // ---- The first loop ----------------------------------------------------------------------------------------------

  datatype TermRecord = TermRecord(original: string, kind: Kind, lookFor: seq<string>)

  /** The classified terms, in input order, with repeats. */
  function Classified(terms: seq<string>): seq<(string, Kind)> {
    if terms == [] then []
    else
      var t := Trim(terms[|terms| - 1]);
      Classified(terms[..|terms| - 1]) + if Classify(t).Some? then [(t, Classify(t).value)] else []
  }

  ghost predicate NoDuplicates<T>(s: seq<T>) {
    forall i, j :: 0 <= i < j < |s| ==> s[i] != s[j]
  }

  /** The list holds exactly the look-up values of the classified terms of one kind. */
  ghost predicate Covers(list: seq<string>, cs: seq<(string, Kind)>, kind: Kind) {
    forall x :: x in list <==> exists c :: c in cs && c.1 == kind && x in Forms(c.0, kind)
  }

  function Records(cs: seq<(string, Kind)>): seq<TermRecord> {
    seq(|cs|, i requires 0 <= i < |cs| =>
      TermRecord(cs[i].0, cs[i].1, if cs[i].1 == Hostname then [] else Forms(cs[i].0, cs[i].1)))
  }

  /** The three lists, jointly: without duplicates and without values in common. */
  ghost predicate Listed(cs: seq<(string, Kind)>, seen: set<string>, macs: seq<string>, ips: seq<string>, hosts: seq<string>) {
    && NoDuplicates(macs) && NoDuplicates(ips) && NoDuplicates(hosts)
    && Covers(macs, cs, Mac) && Covers(ips, cs, Ip) && Covers(hosts, cs, Hostname)
    && (forall x :: x in seen <==> x in macs || x in ips || x in hosts)
  }

  /** Appending the values not seen before. */
  method AddUnseen(seen: set<string>, list: seq<string>, values: seq<string>) returns (seen': set<string>, list': seq<string>)
    requires NoDuplicates(list)
    requires forall x :: x in list ==> x in seen
    requires forall x :: x in values && x in seen ==> x in list
    ensures NoDuplicates(list')
    ensures forall x :: x in list' <==> x in list || x in values
    ensures forall x :: x in seen' <==> x in seen || x in values
  {
    seen', list' := seen, list;
    for i := 0 to |values|
      invariant NoDuplicates(list')
      invariant forall x :: x in list' <==> x in list || x in values[..i]
      invariant forall x :: x in seen' <==> x in seen || x in values[..i]
    {
      assert values[..i + 1] == values[..i] + [values[i]];
      if values[i] !in seen' {
        seen' := seen' + {values[i]};
        list' := list' + [values[i]];
      }
    }
    assert values[..|values|] == values;
  }

  /** A value of a new term that was seen before was put there by a term of the same kind. */
  lemma SeenBySameKind(cs: seq<(string, Kind)>, seen: set<string>, macs: seq<string>, ips: seq<string>, hosts: seq<string>,
                       t: string, x: string)
    requires Listed(cs, seen, macs, ips, hosts)
    requires forall c :: c in cs ==> Classify(c.0) == Some(c.1)
    requires Classify(t).Some? && x in Forms(t, Classify(t).value) && x in seen
    ensures x in match Classify(t).value case Mac => macs case Ip => ips case Hostname => hosts
  {
    FormKeepsKind(t, x);
    var kind := if x in macs then Mac else if x in ips then Ip else Hostname;
    var c :| c in cs && c.1 == kind && x in Forms(c.0, kind);
    FormKeepsKind(c.0, x);
  }

  lemma {:induction false} ClassifiedKinds(terms: seq<string>)
    ensures forall c :: c in Classified(terms) ==> Classify(c.0) == Some(c.1)
  {
    if terms != [] {
      ClassifiedKinds(terms[..|terms| - 1]);
    }
  }

  lemma CoversMore(list: seq<string>, list': seq<string>, cs: seq<(string, Kind)>, t: string, k: Kind, kind: Kind)
    requires Covers(list, cs, kind)
    requires forall x :: x in list' <==> x in list || (k == kind && x in Forms(t, k))
    ensures Covers(list', cs + [(t, k)], kind)
  {
    var cs' := cs + [(t, k)];
    forall x
      ensures x in list' <==> exists c :: c in cs' && c.1 == kind && x in Forms(c.0, kind)
    {
      if x in list {
        var c :| c in cs && c.1 == kind && x in Forms(c.0, kind);
        assert c in cs';
      } else if k == kind && x in Forms(t, k) {
        assert (t, k) in cs';
      }
      if c :| c in cs' && c.1 == kind && x in Forms(c.0, kind) {
        assert c in cs || c == (t, k);
      }
    }
  }

  /** One classified term. */
  method AddTerm(ghost cs: seq<(string, Kind)>, t: string, k: Kind,
                 seen: set<string>, macs: seq<string>, ips: seq<string>, hosts: seq<string>)
    returns (seen': set<string>, macs': seq<string>, ips': seq<string>, hosts': seq<string>)
    requires Listed(cs, seen, macs, ips, hosts) && Classify(t) == Some(k)
    requires forall c :: c in cs ==> Classify(c.0) == Some(c.1)
    ensures Listed(cs + [(t, k)], seen', macs', ips', hosts')
  {
    forall x | x in Forms(t, k) && x in seen
      ensures x in match k case Mac => macs case Ip => ips case Hostname => hosts
    {
      SeenBySameKind(cs, seen, macs, ips, hosts, t, x);
    }
    seen', macs', ips', hosts' := seen, macs, ips, hosts;
    match k {
      case Mac =>
        var norms := NormalizeMac(t);
        seen', macs' := AddUnseen(seen, macs, norms);
      case Ip =>
        seen', ips' := AddUnseen(seen, ips, [t]);
      case Hostname =>
        seen', hosts' := AddUnseen(seen, hosts, [t]);
    }
    CoversMore(macs, macs', cs, t, k, Mac);
    CoversMore(ips, ips', cs, t, k, Ip);
    CoversMore(hosts, hosts', cs, t, k, Hostname);
  }

  method ClassifyTerms(terms: seq<string>)
    returns (seen: set<string>, macs: seq<string>, ips: seq<string>, hosts: seq<string>, records: seq<TermRecord>)
    ensures Listed(Classified(terms), seen, macs, ips, hosts)
    ensures records == Records(Classified(terms))
  {
    seen, macs, ips, hosts, records := {}, [], [], [], [];
    ghost var cs := [];
    for i := 0 to |terms|
      invariant cs == Classified(terms[..i])
      invariant Listed(cs, seen, macs, ips, hosts)
      invariant records == Records(cs)
    {
      ClassifiedKinds(terms[..i]);
      assert terms[..i + 1][..i] == terms[..i];
      var t := Trim(terms[i]);
      var kind := Classify(t);
      if kind.Some? {
        seen, macs, ips, hosts := AddTerm(cs, t, kind.value, seen, macs, ips, hosts);
        records := records + [TermRecord(t, kind.value, if kind.value == Hostname then [] else Forms(t, kind.value))];
        cs := cs + [(t, kind.value)];
      }
    }
    assert terms[..|terms|] == terms;
  }

  // ---- Host names --------------------------------------------------------------------------------------------------

  /** The resolver: a failed look-up is None. */
  type Resolver = string -> Option<seq<string>>

  /** The addresses of a host name that look like IPv4 addresses, in the resolver's order. */
  function Resolved(addrs: seq<string>): seq<string> {
    if addrs == [] then []
    else Resolved(addrs[..|addrs| - 1]) + if IPRe(addrs[|addrs| - 1]) then [addrs[|addrs| - 1]] else []
  }

  lemma {:induction false} ResolvedMembers(addrs: seq<string>, x: string)
    ensures x in Resolved(addrs) <==> x in addrs && IPRe(x)
  {
    if addrs != [] {
      ResolvedMembers(addrs[..|addrs| - 1], x);
      assert x in addrs <==> x in addrs[..|addrs| - 1] || x == addrs[|addrs| - 1];
    }
  }

  /** What a host name is looked up by: nothing when it does not resolve. */
  function AddressesOf(lookup: Resolver, host: string): seq<string> {
    if lookup(host).Some? then Resolved(lookup(host).value) else []
  }

  ghost predicate IsAddressOfAny(lookup: Resolver, hosts: seq<string>, x: string) {
    exists h :: h in hosts && x in AddressesOf(lookup, h)
  }

  lemma OneMoreHost(lookup: Resolver, hosts: seq<string>, h: string, x: string)
    ensures IsAddressOfAny(lookup, hosts + [h], x) <==> IsAddressOfAny(lookup, hosts, x) || x in AddressesOf(lookup, h)
  {
    if g :| g in hosts && x in AddressesOf(lookup, g) {
      assert g in hosts + [h];
    }
    if x in AddressesOf(lookup, h) {
      assert h in hosts + [h];
    }
  }

  method FilterAddresses(addrs: seq<string>) returns (resolved: seq<string>)
    ensures resolved == Resolved(addrs)
  {
    resolved := [];
    for i := 0 to |addrs|
      invariant resolved == Resolved(addrs[..i])
    {
      assert addrs[..i + 1][..i] == addrs[..i];
      if IPRe(addrs[i]) {
        resolved := resolved + [addrs[i]];
      }
    }
    assert addrs[..|addrs|] == addrs;
  }

  /** The loop over the host names: their addresses join the IP list unless they are on it already. */
  method ResolveHosts(lookup: Resolver, hosts: seq<string>, seen: set<string>, ips: seq<string>)
    returns (hostIps: map<string, seq<string>>, ips': seq<string>)
    requires NoDuplicates(ips)
    requires forall x :: x in ips ==> x in seen
    requires forall x :: x in seen && IPRe(x) ==> x in ips
    ensures hostIps.Keys == set h | h in hosts && lookup(h).Some?
    ensures forall h :: h in hostIps ==> hostIps[h] == AddressesOf(lookup, h)
    ensures NoDuplicates(ips')
    ensures forall x :: x in ips' <==> x in ips || IsAddressOfAny(lookup, hosts, x)
  {
    var seen' := seen;
    hostIps, ips' := map[], ips;
    for i := 0 to |hosts|
      invariant hostIps.Keys == set h | h in hosts[..i] && lookup(h).Some?
      invariant forall h :: h in hostIps ==> hostIps[h] == AddressesOf(lookup, h)
      invariant NoDuplicates(ips')
      invariant forall x :: x in ips' ==> x in seen'
      invariant forall x :: x in seen' && IPRe(x) ==> x in ips'
      invariant forall x :: x in ips' <==> x in ips || IsAddressOfAny(lookup, hosts[..i], x)
    {
      assert hosts[..i + 1] == hosts[..i] + [hosts[i]];
      forall x
        ensures IsAddressOfAny(lookup, hosts[..i + 1], x) <==>
                IsAddressOfAny(lookup, hosts[..i], x) || x in AddressesOf(lookup, hosts[i])
      {
        OneMoreHost(lookup, hosts[..i], hosts[i], x);
      }
      var addrs := lookup(hosts[i]);
      if addrs.Some? {
        var resolved := FilterAddresses(addrs.value);
        forall x
          ensures x in resolved <==> x in addrs.value && IPRe(x)
        {
          ResolvedMembers(addrs.value, x);
        }
        seen', ips' := AddUnseen(seen', ips', resolved);
        hostIps := hostIps[hosts[i] := resolved];
      }
    }
    assert hosts[..|hosts|] == hosts;
  }

  /** The records once host names are resolved. */
  function FullRecords(lookup: Resolver, cs: seq<(string, Kind)>): seq<TermRecord> {
    seq(|cs|, i requires 0 <= i < |cs| => FullRecord(lookup, cs[i]))
  }

  function FullRecord(lookup: Resolver, c: (string, Kind)): TermRecord {
    TermRecord(c.0, c.1, if c.1 == Hostname then AddressesOf(lookup, c.0) else Forms(c.0, c.1))
  }

  /** The loop that fills in what each host name is looked up by. */
  method FillHosts(ghost lookup: Resolver, ghost cs: seq<(string, Kind)>, records: seq<TermRecord>,
                   hostIps: map<string, seq<string>>)
    returns (full: seq<TermRecord>)
    requires records == Records(cs)
    requires forall c :: c in cs && c.1 == Hostname ==>
                           AddressesOf(lookup, c.0) == if c.0 in hostIps then hostIps[c.0] else []
    ensures full == FullRecords(lookup, cs)
  {
    full := records;
    for i := 0 to |full|
      invariant |full| == |cs|
      invariant forall j :: 0 <= j < i ==> full[j] == FullRecord(lookup, cs[j])
      invariant forall j :: i <= j < |full| ==> full[j] == records[j]
    {
      assert cs[i] in cs;
      if full[i].kind == Hostname {
        var host := full[i].original;
        full := full[i := full[i].(lookFor := if host in hostIps then hostIps[host] else [])];
      }
    }
  }

  // ---- What was not found --------------------------------------------------------------------------------------------

  /** Some result answers the term. */
  ghost predicate Answers(results: seq<Result>, r: TermRecord) {
    exists res :: res in results &&
                  if r.kind == Mac then Lower(res.mac) in r.lookFor else res.ip.Some? && res.ip.value in r.lookFor
  }

  /** The originals of the unanswered records, in order, with repeats. */
  ghost function Unanswered(results: seq<Result>, records: seq<TermRecord>): seq<string> {
    if records == [] then []
    else
      var r := records[|records| - 1];
      Unanswered(results, records[..|records| - 1]) + if Answers(results, r) then [] else [r.original]
  }

  method CollectFound(results: seq<Result>) returns (foundMacs: set<string>, foundIps: set<string>)
    ensures forall x :: x in foundMacs <==> exists res :: res in results && Lower(res.mac) == x
    ensures forall x :: x in foundIps <==> exists res :: res in results && res.ip == Some(x)
  {
    foundMacs, foundIps := {}, {};
    for i := 0 to |results|
      invariant forall x :: x in foundMacs <==> exists res :: res in results[..i] && Lower(res.mac) == x
      invariant forall x :: x in foundIps <==> exists res :: res in results[..i] && res.ip == Some(x)
    {
      var res := results[i];
      assert results[..i + 1] == results[..i] + [res];
      assert res in results[..i + 1];
      foundMacs := foundMacs + {Lower(res.mac)};
      if res.ip.Some? {
        foundIps := foundIps + {res.ip.value};
      }
    }
    assert results[..|results|] == results;
  }

  method AnyOf(values: seq<string>, found: set<string>) returns (matched: bool)
    ensures matched <==> exists v :: v in values && v in found
  {
    for i := 0 to |values|
      invariant forall v :: v in values[..i] ==> v !in found
    {
      assert values[..i + 1] == values[..i] + [values[i]];
      if values[i] in found {
        return true;
      }
    }
    assert values[..|values|] == values;
    return false;
  }

  method Match(ghost results: seq<Result>, r: TermRecord, foundMacs: set<string>, foundIps: set<string>) returns (matched: bool)
    requires r.kind == Ip ==> |r.lookFor| == 1
    requires forall x :: x in foundMacs <==> exists res :: res in results && Lower(res.mac) == x
    requires forall x :: x in foundIps <==> exists res :: res in results && res.ip == Some(x)
    ensures matched <==> Answers(results, r)
  {
    match r.kind {
      case Mac => matched := AnyOf(r.lookFor, foundMacs);
      case Ip => matched := r.lookFor[0] in foundIps;
      case Hostname => matched := AnyOf(r.lookFor, foundIps);
    }
    if Answers(results, r) {
      var res :| res in results &&
                 if r.kind == Mac then Lower(res.mac) in r.lookFor else res.ip.Some? && res.ip.value in r.lookFor;
      assert if r.kind == Mac then Lower(res.mac) in foundMacs else res.ip.value in foundIps;
    }
  }

  /** The not-found loop. */
  method CollectNotFound(results: seq<Result>, records: seq<TermRecord>) returns (notFound: seq<string>)
    requires forall r :: r in records && r.kind == Ip ==> |r.lookFor| == 1
    ensures notFound == Unanswered(results, records)
  {
    var foundMacs, foundIps := CollectFound(results);
    notFound := [];
    for i := 0 to |records|
      invariant notFound == Unanswered(results, records[..i])
    {
      assert records[..i + 1][..i] == records[..i];
      var matched := Match(results, records[i], foundMacs, foundIps);
      if !matched {
        notFound := notFound + [records[i].original];
      }
    }
    assert records[..|records|] == records;
  }

  // ---- The handler ---------------------------------------------------------------------------------------------------

  /** Every look-up value of a list of records of one kind of column. */
  ghost predicate AsksExactly(list: seq<string>, records: seq<TermRecord>, forMac: bool) {
    forall x :: x in list <==> exists r :: r in records && (r.kind == Mac) == forMac && x in r.lookFor
  }

  /** The originals of all records: what the early return reports. */
  function Originals(records: seq<TermRecord>): seq<string> {
    seq(|records|, i requires 0 <= i < |records| => records[i].original)
  }

  lemma {:induction false} NothingAnswered(records: seq<TermRecord>)
    ensures Unanswered([], records) == Originals(records)
  {
    if records != [] {
      NothingAnswered(records[..|records| - 1]);
      var last := records[|records| - 1];
      assert !Answers([], last);
      assert Originals(records) == Originals(records[..|records| - 1]) + [last.original];
    }
  }

  /** Everything before the query: the two query lists and the records they were made from. */
  method Prepare(lookup: Resolver, terms: seq<string>)
    returns (macs: seq<string>, ips: seq<string>, records: seq<TermRecord>)
    ensures records == FullRecords(lookup, Classified(terms))
    ensures NoDuplicates(macs) && NoDuplicates(ips)
    ensures AsksExactly(macs, records, true) && AsksExactly(ips, records, false)
  {
    var seen, hosts, partial, hostIps;
    ghost var cs := Classified(terms);
    ClassifiedKinds(terms);
    seen, macs, ips, hosts, partial := ClassifyTerms(terms);
    var termIps := ips;
    forall x | x in seen && IPRe(x)
      ensures x in ips
    {
      SeenIpIsListed(cs, seen, macs, ips, hosts, x);
    }
    hostIps, ips := ResolveHosts(lookup, hosts, seen, termIps);
    forall c | c in cs && c.1 == Hostname
      ensures AddressesOf(lookup, c.0) == if c.0 in hostIps then hostIps[c.0] else []
    {
      assert c.0 in Forms(c.0, Hostname);
      assert c.0 in hosts;
    }
    records := FillHosts(lookup, cs, partial, hostIps);
    AsksMacs(lookup, cs, macs);
    AsksIps(lookup, cs, termIps, hosts, ips);
  }

  lemma SeenIpIsListed(cs: seq<(string, Kind)>, seen: set<string>, macs: seq<string>, ips: seq<string>, hosts: seq<string>, x: string)
    requires Listed(cs, seen, macs, ips, hosts) && x in seen && IPRe(x)
    requires forall c :: c in cs ==> Classify(c.0) == Some(c.1)
    ensures x in ips
  {
    IpIsNothingElse(x);
    assert x != "";
    assert Classify(x) == Some(Ip);
    if x in macs || x in hosts {
      var kind := if x in macs then Mac else Hostname;
      var c :| c in cs && c.1 == kind && x in Forms(c.0, kind);
      FormKeepsKind(c.0, x);
    }
  }

  lemma AsksMacs(lookup: Resolver, cs: seq<(string, Kind)>, macs: seq<string>)
    requires Covers(macs, cs, Mac)
    ensures AsksExactly(macs, FullRecords(lookup, cs), true)
  {
    var records := FullRecords(lookup, cs);
    forall x
      ensures x in macs <==> exists r :: r in records && (r.kind == Mac) && x in r.lookFor
    {
      if x in macs {
        var c :| c in cs && c.1 == Mac && x in Forms(c.0, Mac);
        RecordOf(lookup, cs, c);
      }
    }
  }

  lemma RecordOf(lookup: Resolver, cs: seq<(string, Kind)>, c: (string, Kind))
    requires c in cs
    ensures FullRecord(lookup, c) in FullRecords(lookup, cs)
  {
    var i :| 0 <= i < |cs| && cs[i] == c;
    assert FullRecords(lookup, cs)[i] == FullRecord(lookup, c);
  }

  lemma AsksIps(lookup: Resolver, cs: seq<(string, Kind)>, termIps: seq<string>, hosts: seq<string>, ips: seq<string>)
    requires Covers(termIps, cs, Ip) && Covers(hosts, cs, Hostname)
    requires forall x :: x in ips <==> x in termIps || IsAddressOfAny(lookup, hosts, x)
    ensures AsksExactly(ips, FullRecords(lookup, cs), false)
  {
    var records := FullRecords(lookup, cs);
    forall x
      ensures x in ips <==> exists r :: r in records && !(r.kind == Mac) && x in r.lookFor
    {
      if x in termIps {
        var c :| c in cs && c.1 == Ip && x in Forms(c.0, Ip);
        RecordOf(lookup, cs, c);
      }
      if h :| h in hosts && x in AddressesOf(lookup, h) {
        var c :| c in cs && c.1 == Hostname && h in Forms(c.0, Hostname);
        RecordOf(lookup, cs, c);
      }
      if r :| r in records && r.kind != Mac && x in r.lookFor {
        var i :| 0 <= i < |records| && records[i] == r;
        assert cs[i] in cs && r == FullRecord(lookup, cs[i]);
        if r.kind == Hostname {
          assert cs[i].0 in Forms(cs[i].0, Hostname);
          assert cs[i].0 in hosts;
        } else {
          assert x in Forms(cs[i].0, Ip);
        }
      }
    }
  }

  /** A database that answers each pair of lists with the rows of some answer of the query, in some order. */
  ghost predicate AnswersFor(db: Db, query: (seq<string>, seq<string>) -> seq<Result>) {
    forall macs, ips :: IsAnswer(db, (set x | x in macs), (set x | x in ips), (set r | r in query(macs, ips)))
  }

  /** What the handler promises: both lists ask for exactly the look-up values of the records, the results are
      the query's rows for them, and the terms not found are those no result answers. */
  ghost predicate IsOutcome(query: (seq<string>, seq<string>) -> seq<Result>, lookup: Resolver, terms: seq<string>,
                            macs: seq<string>, ips: seq<string>, results: seq<Result>, notFound: seq<string>) {
    var records := FullRecords(lookup, Classified(terms));
    && AsksExactly(macs, records, true) && AsksExactly(ips, records, false)
    && results == query(macs, ips)
    && notFound == Unanswered(results, records)
  }

  /** The whole handler. With nothing to ask it answers early, without a query; its answer is then the one the
      query would have led to. */
  method Search(ghost db: Db, query: (seq<string>, seq<string>) -> seq<Result>, lookup: Resolver, terms: seq<string>)
    returns (results: seq<Result>, notFound: seq<string>, ghost macs: seq<string>, ghost ips: seq<string>)
    requires AnswersFor(db, query)
    ensures NoDuplicates(macs) && NoDuplicates(ips)
    ensures IsOutcome(query, lookup, terms, macs, ips, results, notFound)
  {
    var macList, ipList, records := Prepare(lookup, terms);
    macs, ips := macList, ipList;
    if |macList| == 0 && |ipList| == 0 {
      EmptyQuery(db, query);
      NothingAnswered(records);
      return [], Originals(records), macs, ips;
    }
    results := query(macList, ipList);
    IpRecordsAreSingle(lookup, Classified(terms));
    notFound := CollectNotFound(results, records);
  }

  lemma IpRecordsAreSingle(lookup: Resolver, cs: seq<(string, Kind)>)
    ensures forall r :: r in FullRecords(lookup, cs) && r.kind == Ip ==> |r.lookFor| == 1
  {
  }

  lemma NonEmptyListing(listed: seq<Result>, all: set<Result>)
    requires forall r :: r in listed ==> r in all
    ensures listed != [] ==> all != {}
  {
    if listed != [] {
      assert listed[0] in all;
    }
  }

  lemma EmptyQuery(db: Db, query: (seq<string>, seq<string>) -> seq<Result>)
    requires AnswersFor(db, query)
    ensures query([], []) == []
  {
    var none: seq<string> := [];
    var answer := set r | r in query(none, none);
    assert IsAnswer(db, (set x | x in none), (set x | x in none), answer);
    assert (set x | x in none) == {};
    NothingAskedNothingFound(db, answer);
    NonEmptyListing(query(none, none), answer);
  }
}
