/** What a search is certain to find: the handler's bookkeeping put together with the query. */
module SearchCompleteness {
  import opened Options
  import opened Readings
  import opened MacAddress
  import opened SearchSql
  import opened SearchHandler

  ghost predicate ListsAnswer(db: Db, macs: seq<string>, ips: seq<string>, results: seq<Result>) {
    IsAnswer(db, (set x | x in macs), (set x | x in ips), (set r | r in results))
  }

  /** The results are the rows of both halves under one choice of the three selections. */
  ghost predicate IsListing(db: Db, best: set<MacRow>, latest: set<ArpRow>, newest: set<ArpRow>,
                            macs: seq<string>, ips: seq<string>, results: seq<Result>) {
    && IsBestMac(db, best) && IsLatestArp(db, latest) && IsNewestPerIp(db, (set x | x in ips), newest)
    && forall r :: r in results <==>
                     r in FirstHalf(db, best, latest, (set x | x in macs), (set x | x in ips)) + SecondHalf(db, newest)
  }

  /** The selections behind an answer. */
  lemma Selections(db: Db, macs: seq<string>, ips: seq<string>, results: seq<Result>)
    returns (best: set<MacRow>, latest: set<ArpRow>, newest: set<ArpRow>)
    requires ListsAnswer(db, macs, ips, results)
    ensures IsListing(db, best, latest, newest, macs, ips, results)
  {
    var all := set r | r in results;
    best, latest, newest :|
      && IsBestMac(db, best) && IsLatestArp(db, latest) && IsNewestPerIp(db, (set x | x in ips), newest)
      && all == FirstHalf(db, best, latest, (set x | x in macs), (set x | x in ips)) + SecondHalf(db, newest);
    assert forall r :: r in results <==> r in all;
  }

  // ---- MAC terms -------------------------------------------------------------------------------------------------

  /** The stored string spells the address of the term in a form a search looks for: with colons or with dots,
      in any letter case. */
  predicate Spells(w: string, t: string) {
    (IsColonForm(w) || IsDotted(w)) && Digits(w) == Digits(t)
  }

  lemma LowerIsIdempotent(w: string)
    ensures Lower(Lower(w)) == Lower(w) && Digits(Lower(w)) == Digits(w)
  {
    assert forall i :: 0 <= i < |w| ==> LowerChar(LowerChar(w[i])) == LowerChar(w[i]);
  }

  /** Letter case does not matter to the shape of an address. */
  lemma ShapeIgnoresCase(w: string)
    ensures IsColonForm(Lower(w)) <==> IsColonForm(w)
    ensures IsDotted(Lower(w)) <==> IsDotted(w)
  {
    forall i | 0 <= i < |w|
      ensures IsHex(Lower(w)[i]) <==> IsHex(w[i])
      ensures Lower(w)[i] == ':' <==> w[i] == ':'
      ensures Lower(w)[i] == '-' <==> w[i] == '-'
      ensures Lower(w)[i] == '.' <==> w[i] == '.'
    {
    }
  }

  /** The lower-cased string is one of the look-up values of an accepted term exactly when it spells the
      term's address in colon or dotted form. */
  lemma LookUpValueIff(w: string, t: string)
    requires MacRe(t)
    ensures Lower(w) in Normal(t) <==> Spells(w, t)
  {
    LowerIsIdempotent(w);
    ShapeIgnoresCase(w);
    if Lower(w) in Normal(t) {
      FormsAreFixed(t);
      SpellingIsAFormIff(Lower(w));
    }
    if Spells(w, t) {
      SpellingIsAFormIff(w);
      SameFormsIffSameAddress(w, t);
    }
  }

  /** mac_table has the address in colon or dotted form, or the newest ARP row of an asked IP has it so while
      mac_table does not have it at all. */
  ghost predicate MacIsThere(db: Db, newest: set<ArpRow>, t: string) {
    || (exists m :: m in db.macs && Spells(m.mac, t))
    || (exists a :: a in newest && a.mac.Some? && Spells(a.mac.value, t) && Unseen(db, a))
  }

  lemma ShownMacIsThere(db: Db, best: set<MacRow>, latest: set<ArpRow>, newest: set<ArpRow>,
                        macs: set<string>, ips: set<string>, res: Result, t: string)
    requires IsBestMac(db, best) && MacRe(t)
    requires res in FirstHalf(db, best, latest, macs, ips) + SecondHalf(db, newest) && Lower(res.mac) in Normal(t)
    ensures MacIsThere(db, newest, t)
  {
    LookUpValueIff(res.mac, t);
    if res in FirstHalf(db, best, latest, macs, ips) {
      var m := PortIsBest(db, best, latest, macs, ips, res);
      assert Spells(m.mac, t);
    } else {
      var a :| a in newest && Unseen(db, a) && ArpOnly(a) == res;
      assert res.mac != "";
    }
  }

  lemma ThereIsShown(db: Db, best: set<MacRow>, latest: set<ArpRow>, newest: set<ArpRow>,
                     macs: set<string>, ips: set<string>, t: string) returns (res: Result)
    requires IsBestMac(db, best) && MacRe(t) && (forall x :: x in Normal(t) ==> x in macs)
    requires MacIsThere(db, newest, t)
    ensures res in FirstHalf(db, best, latest, macs, ips) + SecondHalf(db, newest) && Lower(res.mac) in Normal(t)
  {
    if m :| m in db.macs && Spells(m.mac, t) {
      LookUpValueIff(m.mac, t);
      StoredMacIsShown(db, best, latest, macs, ips, m);
      res :| res in FirstHalf(db, best, latest, macs, ips) && res.mac == m.mac;
    } else {
      var a :| a in newest && a.mac.Some? && Spells(a.mac.value, t) && Unseen(db, a);
      LookUpValueIff(a.mac.value, t);
      res := ArpOnly(a);
    }
  }

  /** Exactly when a MAC term is reported found, whatever spelling it was given in and however the database
      breaks ties. */
  lemma MacIsReportedIff(db: Db, best: set<MacRow>, latest: set<ArpRow>, newest: set<ArpRow>,
                         macs: seq<string>, ips: seq<string>, results: seq<Result>, records: seq<TermRecord>, r: TermRecord)
    requires IsListing(db, best, latest, newest, macs, ips, results) && AsksExactly(macs, records, true)
    requires r in records && r.kind == Mac && MacRe(r.original) && r.lookFor == Normal(r.original)
    ensures Answers(results, r) <==> MacIsThere(db, newest, r.original)
  {
    var macSet, ipSet := (set x | x in macs), (set x | x in ips);
    if Answers(results, r) {
      var res :| res in results && Lower(res.mac) in r.lookFor;
      ShownMacIsThere(db, best, latest, newest, macSet, ipSet, res, r.original);
    }
    if MacIsThere(db, newest, r.original) {
      var res := ThereIsShown(db, best, latest, newest, macSet, ipSet, r.original);
      assert res in results;
    }
  }

  /** A MAC stored in colon or dotted form, in any letter case, is reported found for every accepted spelling
      of it. */
  lemma StoredMacIsReported(db: Db, macs: seq<string>, ips: seq<string>, results: seq<Result>,
                            records: seq<TermRecord>, r: TermRecord, m: MacRow)
    requires ListsAnswer(db, macs, ips, results) && AsksExactly(macs, records, true)
    requires r in records && r.kind == Mac && MacRe(r.original) && r.lookFor == Normal(r.original)
    requires m in db.macs && Spells(m.mac, r.original)
    ensures Answers(results, r)
  {
    var best, latest, newest := Selections(db, macs, ips, results);
    MacIsReportedIff(db, best, latest, newest, macs, ips, results, records, r);
  }

  /** No table has the address in colon or dotted form; it may be there with hyphens, or bare. */
  ghost predicate OnlyOtherSpellings(db: Db, t: string) {
    && (forall m :: m in db.macs ==> !Spells(m.mac, t))
    && (forall a :: a in db.arps && a.mac.Some? ==> !Spells(a.mac.value, t))
  }

  /** Such an address is never reported, not even for the very spelling that is stored. */
  lemma OtherSpellingsAreNotReported(db: Db, macs: seq<string>, ips: seq<string>, results: seq<Result>,
                                     records: seq<TermRecord>, r: TermRecord)
    requires ListsAnswer(db, macs, ips, results) && AsksExactly(macs, records, true)
    requires r in records && r.kind == Mac && MacRe(r.original) && r.lookFor == Normal(r.original)
    requires OnlyOtherSpellings(db, r.original)
    ensures !Answers(results, r)
  {
    var best, latest, newest := Selections(db, macs, ips, results);
    MacIsReportedIff(db, best, latest, newest, macs, ips, results, records, r);
  }

  /** Not even the very spelling that is stored finds a row that has hyphens or no separators at all. */
  lemma LoneRowIsNotReported(db: Db, macs: seq<string>, ips: seq<string>, results: seq<Result>, m: MacRow)
    requires ListsAnswer(db, macs, ips, results) && db.macs == {m} && db.arps == {}
    requires MacRe(m.mac) && !IsColonForm(m.mac) && !IsDotted(m.mac)
    requires AsksExactly(macs, [TermRecord(m.mac, Mac, Normal(m.mac))], true)
    ensures !Answers(results, TermRecord(m.mac, Mac, Normal(m.mac)))
  {
    var r := TermRecord(m.mac, Mac, Normal(m.mac));
    assert r in [r];
    OtherSpellingsAreNotReported(db, macs, ips, results, [r], r);
  }

  lemma IsHyphenated(w: string)
    requires w == "00-11-22-33-44-55"
    ensures MacRe(w) && !IsColonForm(w) && !IsDotted(w)
  {
    assert w[2] == '-';
  }

  /** A concrete input: the address is stored with hyphens and asked for with hyphens. */
  lemma HyphenatedRowIsNotReported(macs: seq<string>, ips: seq<string>, results: seq<Result>, m: MacRow)
    requires m == MacRow("n", "00-11-22-33-44-55", Some("Gi1"), 5)
    requires ListsAnswer(Db({m}, {}, {}, {}), macs, ips, results)
    requires AsksExactly(macs, [TermRecord(m.mac, Mac, Normal(m.mac))], true)
    ensures MacRe(m.mac) && !Answers(results, TermRecord(m.mac, Mac, Normal(m.mac)))
  {
    IsHyphenated(m.mac);
    LoneRowIsNotReported(Db({m}, {}, {}, {}), macs, ips, results, m);
  }

  // ---- IP and host terms -----------------------------------------------------------------------------------------

  /** An IP, asked for as such or through a host name that resolves to it, is reported found when its newest
      ARP row is also the newest one of its MAC, whether or not that MAC is in mac_table. */
  lemma CurrentIpIsReported(db: Db, macs: seq<string>, ips: seq<string>, results: seq<Result>,
                            records: seq<TermRecord>, r: TermRecord, a: ArpRow)
    requires UniqueKeys(db) && ListsAnswer(db, macs, ips, results) && AsksExactly(ips, records, false)
    requires r in records && r.kind != Mac && a.ip in r.lookFor
    requires Current(db, a) && OneSpelling(db, a.mac.value)
    ensures Answers(results, r)
  {
    assert a.ip in ips;
    var best, latest, newest := Selections(db, macs, ips, results);
    var macSet, ipSet := (set x | x in macs), (set x | x in ips);
    CurrentIpIsShown(db, best, latest, newest, macSet, ipSet, a);
    var res :| res in FirstHalf(db, best, latest, macSet, ipSet) + SecondHalf(db, newest) && res.ip == Some(a.ip);
    assert res in results;
  }

  /** The IP is on the newest ARP row of a stored MAC, or its own newest ARP row names no stored MAC. */
  ghost predicate IpIsThere(db: Db, latest: set<ArpRow>, newest: set<ArpRow>, ip: string) {
    || (exists m, a :: m in db.macs && a in latest && a.mac == Some(m.mac) && a.ip == ip)
    || (exists a :: a in newest && a.ip == ip && Unseen(db, a))
  }

  /** Exactly which asked IPs an answer shows: those on the newest ARP row of a stored MAC, and those whose own
      newest ARP row names a MAC that is not stored. */
  lemma IpIsShownIff(db: Db, best: set<MacRow>, latest: set<ArpRow>, newest: set<ArpRow>,
                     macs: set<string>, ips: set<string>, ip: string)
    requires UniqueKeys(db) && IsBestMac(db, best) && IsLatestArp(db, latest) && ip in ips
    ensures ShowsIp(FirstHalf(db, best, latest, macs, ips) + SecondHalf(db, newest), ip) <==>
            IpIsThere(db, latest, newest, ip)
  {
    IpInFirstHalfIff(db, best, latest, macs, ips, ip);
    IpInSecondHalfIff(db, ips, newest, ip);
    var first, second := FirstHalf(db, best, latest, macs, ips), SecondHalf(db, newest);
    if ShowsIp(first, ip) {
      var r :| r in first && r.ip == Some(ip);
      assert r in first + second;
    }
    if ShowsIp(second, ip) {
      var r :| r in second && r.ip == Some(ip);
      assert r in first + second;
    }
  }

  /** A term is reported not found exactly when it was classified and no result answers it. */
  lemma {:induction false} UnansweredIff(results: seq<Result>, records: seq<TermRecord>, t: string)
    ensures t in Unanswered(results, records) <==> exists r :: r in records && r.original == t && !Answers(results, r)
  {
    if records != [] {
      var init, last := records[..|records| - 1], records[|records| - 1];
      UnansweredIff(results, init, t);
      assert forall r :: r in records <==> r in init || r == last;
    }
  }

  // ---- The whole handler -----------------------------------------------------------------------------------------

  lemma IpIsReportedIff(db: Db, best: set<MacRow>, latest: set<ArpRow>, newest: set<ArpRow>,
                        macs: seq<string>, ips: seq<string>, results: seq<Result>, records: seq<TermRecord>, r: TermRecord)
    requires UniqueKeys(db) && IsListing(db, best, latest, newest, macs, ips, results) && AsksExactly(ips, records, false)
    requires r in records && r.kind != Mac
    ensures Answers(results, r) <==> exists ip :: ip in r.lookFor && IpIsThere(db, latest, newest, ip)
  {
    var all := FirstHalf(db, best, latest, (set x | x in macs), (set x | x in ips)) + SecondHalf(db, newest);
    forall ip | ip in r.lookFor
      ensures ShowsIp(all, ip) <==> IpIsThere(db, latest, newest, ip)
    {
      assert ip in ips;
      IpIsShownIff(db, best, latest, newest, (set x | x in macs), (set x | x in ips), ip);
    }
    if Answers(results, r) {
      var res :| res in results && res.ip.Some? && res.ip.value in r.lookFor;
      assert res in all && ShowsIp(all, res.ip.value);
    }
    if ip :| ip in r.lookFor && IpIsThere(db, latest, newest, ip) {
      var res :| res in all && res.ip == Some(ip);
      assert res in results;
    }
  }

  /** What the tables must hold for a term to be found. */
  ghost predicate IsThere(db: Db, latest: set<ArpRow>, newest: set<ArpRow>, lookup: Resolver, t: string) {
    match Classify(t)
    case Some(Mac) => MacIsThere(db, newest, t)
    case Some(Ip) => IpIsThere(db, latest, newest, t)
    case Some(Hostname) =>
      lookup(t).Some? && exists ip :: ip in lookup(t).value && IPRe(ip) && IpIsThere(db, latest, newest, ip)
    case None => false
  }

  lemma RecordIsReportedIff(db: Db, best: set<MacRow>, latest: set<ArpRow>, newest: set<ArpRow>, lookup: Resolver,
                            macs: seq<string>, ips: seq<string>, results: seq<Result>, records: seq<TermRecord>,
                            t: string, kind: Kind)
    requires UniqueKeys(db) && IsListing(db, best, latest, newest, macs, ips, results)
    requires AsksExactly(macs, records, true) && AsksExactly(ips, records, false)
    requires Classify(t) == Some(kind) && FullRecord(lookup, (t, kind)) in records
    ensures Answers(results, FullRecord(lookup, (t, kind))) <==> IsThere(db, latest, newest, lookup, t)
  {
    var r := FullRecord(lookup, (t, kind));
    if kind == Mac {
      MacIsReportedIff(db, best, latest, newest, macs, ips, results, records, r);
    } else {
      IpIsReportedIff(db, best, latest, newest, macs, ips, results, records, r);
      if kind == Ip {
        assert r.lookFor == [t];
        assert t in r.lookFor;
      } else if lookup(t).Some? {
        forall ip
          ensures ip in r.lookFor <==> ip in lookup(t).value && IPRe(ip)
        {
          ResolvedMembers(lookup(t).value, ip);
        }
      }
    }
  }

  /** The classified terms are the trimmed terms of a kind. */
  lemma {:induction false} ClassifiedIff(terms: seq<string>, c: (string, Kind))
    ensures c in Classified(terms) <==> Classify(c.0) == Some(c.1) && exists t :: t in terms && Trim(t) == c.0
  {
    if terms != [] {
      var init, last := terms[..|terms| - 1], terms[|terms| - 1];
      ClassifiedIff(init, c);
      assert forall t :: t in terms <==> t in init || t == last;
    }
  }

  lemma RecordsOfTerm(lookup: Resolver, terms: seq<string>, t: string, r: TermRecord)
    ensures r in FullRecords(lookup, Classified(terms)) && r.original == t <==>
            && Classify(t).Some? && r == FullRecord(lookup, (t, Classify(t).value))
            && exists x :: x in terms && Trim(x) == t
  {
    var cs := Classified(terms);
    if r in FullRecords(lookup, cs) && r.original == t {
      var i :| 0 <= i < |cs| && FullRecords(lookup, cs)[i] == r;
      assert cs[i] in cs;
      ClassifiedIff(terms, cs[i]);
    }
    if Classify(t).Some? && (exists x :: x in terms && Trim(x) == t) {
      ClassifiedIff(terms, (t, Classify(t).value));
      RecordOf(lookup, cs, (t, Classify(t).value));
    }
  }

  /** What the handler has to report about a term. */
  ghost function Reported(db: Db, latest: set<ArpRow>, newest: set<ArpRow>, lookup: Resolver, x: string): Option<string> {
    var t := Trim(x);
    if Classify(t).Some? && !IsThere(db, latest, newest, lookup, t) then Some(t) else None
  }

  ghost function ReportedAll(db: Db, latest: set<ArpRow>, newest: set<ArpRow>, lookup: Resolver, terms: seq<string>):
    seq<Option<string>>
  {
    seq(|terms|, i requires 0 <= i < |terms| => Reported(db, latest, newest, lookup, terms[i]))
  }

  /** The search as a whole: whatever the terms, the tables and the ties the database breaks, what is reported
      not found is exactly the trimmed terms of a kind that the tables do not hold, in the order of the terms,
      with their repeats. */
  lemma NotFoundIff(db: Db, query: (seq<string>, seq<string>) -> seq<Result>, lookup: Resolver, terms: seq<string>,
                    macs: seq<string>, ips: seq<string>, results: seq<Result>, notFound: seq<string>)
    returns (best: set<MacRow>, latest: set<ArpRow>, newest: set<ArpRow>, at: seq<nat>)
    requires UniqueKeys(db) && AnswersFor(db, query)
    requires IsOutcome(query, lookup, terms, macs, ips, results, notFound)
    ensures IsListing(db, best, latest, newest, macs, ips, results)
    ensures Keeps(ReportedAll(db, latest, newest, lookup, terms), notFound, at)
    ensures forall t :: t in notFound <==>
                          && (exists x :: x in terms && Trim(x) == t)
                          && Classify(t).Some? && !IsThere(db, latest, newest, lookup, t)
  {
    assert ListsAnswer(db, macs, ips, results);
    best, latest, newest := Selections(db, macs, ips, results);
    forall t
      ensures t in notFound <==>
              (exists x :: x in terms && Trim(x) == t) && Classify(t).Some? && !IsThere(db, latest, newest, lookup, t)
    {
      TermIsNotFoundIff(db, best, latest, newest, lookup, terms, macs, ips, results, t);
    }
    forall x, kind | x in terms && Classify(Trim(x)) == Some(kind)
      ensures Answers(results, FullRecord(lookup, (Trim(x), kind))) <==> IsThere(db, latest, newest, lookup, Trim(x))
    {
      var t := Trim(x);
      RecordsOfTerm(lookup, terms, t, FullRecord(lookup, (t, kind)));
      RecordIsReportedIff(db, best, latest, newest, lookup, macs, ips, results, FullRecords(lookup, Classified(terms)), t, kind);
    }
    UnansweredInOrder(db, latest, newest, lookup, results, terms);
    at := SomesMeaning(ReportedAll(db, latest, newest, lookup, terms));
  }

  /** Of the records of these terms, those whose term is there are answered. */
  ghost predicate AnsweredIffThere(db: Db, latest: set<ArpRow>, newest: set<ArpRow>, lookup: Resolver,
                                   results: seq<Result>, terms: seq<string>) {
    forall x, kind :: x in terms && Classify(Trim(x)) == Some(kind) ==>
                        (Answers(results, FullRecord(lookup, (Trim(x), kind))) <==> IsThere(db, latest, newest, lookup, Trim(x)))
  }

  lemma {:induction false} UnansweredInOrder(db: Db, latest: set<ArpRow>, newest: set<ArpRow>, lookup: Resolver,
                                            results: seq<Result>, terms: seq<string>)
    requires AnsweredIffThere(db, latest, newest, lookup, results, terms)
    ensures Unanswered(results, FullRecords(lookup, Classified(terms))) == Somes(ReportedAll(db, latest, newest, lookup, terms))
  {
    if terms != [] {
      var init, last := terms[..|terms| - 1], terms[|terms| - 1];
      UnansweredInOrder(db, latest, newest, lookup, results, init);
      assert terms == init + [last];
      ReportedSnoc(db, latest, newest, lookup, init, last);
      OneMoreTerm(lookup, results, init, last);
    }
  }

  lemma ReportedSnoc(db: Db, latest: set<ArpRow>, newest: set<ArpRow>, lookup: Resolver, init: seq<string>, last: string)
    ensures var reported := Reported(db, latest, newest, lookup, last);
            Somes(ReportedAll(db, latest, newest, lookup, init + [last])) ==
            Somes(ReportedAll(db, latest, newest, lookup, init)) + if reported.Some? then [reported.value] else []
  {
    var all := ReportedAll(db, latest, newest, lookup, init + [last]);
    assert all[..|all| - 1] == ReportedAll(db, latest, newest, lookup, init);
  }

  lemma UnansweredSnoc(results: seq<Result>, init: seq<TermRecord>, r: TermRecord)
    ensures Unanswered(results, init + [r]) == Unanswered(results, init) + if Answers(results, r) then [] else [r.original]
  {
    var records := init + [r];
    assert records[..|records| - 1] == init && records[|records| - 1] == r;
  }

  lemma OneMoreTerm(lookup: Resolver, results: seq<Result>, init: seq<string>, last: string)
    ensures Unanswered(results, FullRecords(lookup, Classified(init + [last]))) ==
            Unanswered(results, FullRecords(lookup, Classified(init))) +
            match Classify(Trim(last))
            case None => []
            case Some(kind) => if Answers(results, FullRecord(lookup, (Trim(last), kind))) then [] else [Trim(last)]
  {
    var terms, t := init + [last], Trim(last);
    assert terms[..|terms| - 1] == init;
    if Classify(t).Some? {
      var c := (t, Classify(t).value);
      assert Classified(terms) == Classified(init) + [c];
      assert FullRecords(lookup, Classified(init) + [c]) == FullRecords(lookup, Classified(init)) + [FullRecord(lookup, c)];
      UnansweredSnoc(results, FullRecords(lookup, Classified(init)), FullRecord(lookup, c));
    } else {
      assert Classified(terms) == Classified(init) + [];
      assert Classified(terms) == Classified(init);
    }
  }

  lemma TermIsNotFoundIff(db: Db, best: set<MacRow>, latest: set<ArpRow>, newest: set<ArpRow>, lookup: Resolver,
                          terms: seq<string>, macs: seq<string>, ips: seq<string>, results: seq<Result>, t: string)
    requires UniqueKeys(db) && IsListing(db, best, latest, newest, macs, ips, results)
    requires AsksExactly(macs, FullRecords(lookup, Classified(terms)), true)
    requires AsksExactly(ips, FullRecords(lookup, Classified(terms)), false)
    ensures t in Unanswered(results, FullRecords(lookup, Classified(terms))) <==>
            (exists x :: x in terms && Trim(x) == t) && Classify(t).Some? && !IsThere(db, latest, newest, lookup, t)
  {
    var records := FullRecords(lookup, Classified(terms));
    UnansweredIff(results, records, t);
    forall r
      ensures r in records && r.original == t <==>
              && Classify(t).Some? && r == FullRecord(lookup, (t, Classify(t).value))
              && exists x :: x in terms && Trim(x) == t
    {
      RecordsOfTerm(lookup, terms, t, r);
    }
    if Classify(t).Some? && exists x :: x in terms && Trim(x) == t {
      var kind := Classify(t).value;
      assert FullRecord(lookup, (t, kind)) in records;
      RecordIsReportedIff(db, best, latest, newest, lookup, macs, ips, results, records, t, kind);
    }
  }
}
