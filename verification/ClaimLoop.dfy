/** The message loop of ConsumeClaim for interface-table and vlan-table, and the cleanup of both tables, as
    methods that update the tables in place. */
module ClaimLoop {
  import opened Options
  import opened Statements
  import opened GuardedLog
  import opened GuardedTables
  import opened Cleanup

  /** A message of either topic; a body that does not decode is None. */
  datatype Message = InterfaceMessage(interfaceBody: Option<IfEntry>) | VlanMessage(vlanBody: Option<VlanEntry>)

  datatype Tables = Tables(interfaces: IfTable, vlans: VlanTable)

  /** One message: the tables afterwards, and whether it was handled without error. */
  function Handle(t: Tables, m: Message, db: Outcome): (Tables, bool) {
    match m
    case InterfaceMessage(body) =>
      var (interfaces, ok) := HandleInterface(t.interfaces, body, db);
      (t.(interfaces := interfaces), ok)
    case VlanMessage(body) =>
      var (vlans, ok) := HandleVlan(t.vlans, body, db);
      (t.(vlans := vlans), ok)
  }

  predicate Accepts(m: Message) {
    match m
    case InterfaceMessage(body) => body.Some? && IfAccepts(body.value)
    case VlanMessage(body) => body.Some? && FitsInteger(body.value.vlanId)
  }

  /** One message on both guarded registers: the handler is the register's step on its own topic's table,
      leaves the other table alone, and reports success exactly when that step is acknowledged. */
  lemma HandleIsRegisterStep(t: Tables, m: Message, db: Outcome)
    ensures Handle(t, m, db).1 <==> db.Commits? && Accepts(m)
    ensures var (t', ok) := Handle(t, m, db);
            match m
            case InterfaceMessage(body) =>
              && IfAbs(t'.interfaces) == Received(IF_DEFAULTS, IfAbs(t.interfaces), IfItem(body), db)
              && t'.vlans == t.vlans
              && (ok <==> Acknowledged(IfItem(body), db))
            case VlanMessage(body) =>
              && VlanAbs(t'.vlans) == Received(VLAN_DEFAULTS, VlanAbs(t.vlans), VlanItem(body), db)
              && t'.interfaces == t.interfaces
              && (ok <==> Acknowledged(VlanItem(body), db))
  {
    match m
    case InterfaceMessage(body) => InterfaceIsGuardedRegister(t.interfaces, body, db);
    case VlanMessage(body) => VlanIsGuardedRegister(t.vlans, body, db);
  }

  function HandleAll(t: Tables, ms: seq<Message>, db: seq<Outcome>): Tables
    requires |ms| == |db|
  {
    if ms == [] then t
    else Handle(HandleAll(t, ms[..|ms| - 1], db[..|db| - 1]), ms[|ms| - 1], db[|db| - 1]).0
  }

  /** Message i of a claim is handled without error. */
  predicate Succeeds(ms: seq<Message>, db: seq<Outcome>, i: int)
    requires |ms| == |db| && 0 <= i < |ms|
  {
    db[i].Commits? && Accepts(ms[i])
  }

  /** `marked` is one past the last success, or where it was. */
  ghost predicate MarksLastSuccess(ms: seq<Message>, db: seq<Outcome>, marked: nat)
    requires |ms| == |db|
  {
    && marked <= |ms|
    && (marked > 0 ==> Succeeds(ms, db, marked - 1))
    && (forall i :: marked <= i < |ms| ==> !Succeeds(ms, db, i))
  }

  // ---- A claim is a stretch of a run -----------------------------------------------------------------------------

  function InterfaceMessages(bodies: seq<Option<IfEntry>>): seq<Message> {
    seq(|bodies|, i requires 0 <= i < |bodies| => InterfaceMessage(bodies[i]))
  }

  function VlanMessages(bodies: seq<Option<VlanEntry>>): seq<Message> {
    seq(|bodies|, i requires 0 <= i < |bodies| => VlanMessage(bodies[i]))
  }

  lemma MarkOfOneMore(ms: seq<Message>, db: seq<Outcome>, before: nat, n: nat)
    requires |ms| == |db| && n < |ms|
    requires MarksLastSuccess(ms[..n], db[..n], before)
    ensures MarksLastSuccess(ms[..n + 1], db[..n + 1], if Succeeds(ms, db, n) then n + 1 else before)
  {
    var ms', db' := ms[..n + 1], db[..n + 1];
    assert Succeeds(ms, db, n) <==> Succeeds(ms', db', n);
    forall i | 0 <= i < n
      ensures Succeeds(ms', db', i) <==> Succeeds(ms[..n], db[..n], i)
    {
    }
    if Succeeds(ms, db, n) {
      assert MarksLastSuccess(ms', db', n + 1);
    } else {
      assert before > 0 ==> Succeeds(ms', db', before - 1);
      assert forall i :: before <= i < n + 1 ==> !Succeeds(ms', db', i);
    }
  }

  lemma OneLastSuccess(ms: seq<Message>, db: seq<Outcome>, a: nat, b: nat)
    requires |ms| == |db| && MarksLastSuccess(ms, db, a) && MarksLastSuccess(ms, db, b)
    ensures a == b
  {
  }

  /** The machine's state s is the one after the first n messages of a claim that began at offset c. */
  ghost predicate InterfaceClaimAt(ms: seq<Message>, t: Tables, c: nat, db: seq<Outcome>, n: nat, s: State<IfKey, Column, Cell>)
    requires |ms| == |db| && n <= |db|
  {
    && s.pos == c + n && c <= s.marked
    && s.table == IfAbs(HandleAll(t, ms[..n], db[..n]).interfaces)
    && MarksLastSuccess(ms[..n], db[..n], s.marked - c)
  }

  lemma InterfaceClaimStep(body: Option<IfEntry>, ms: seq<Message>, t: Tables, c: nat, db: seq<Outcome>, n: nat,
                       log: seq<Item<IfKey, Column, Cell>>, s: State<IfKey, Column, Cell>)
    requires |ms| == |db| && n < |db| && ms[n] == InterfaceMessage(body) && InterfaceClaimAt(ms, t, c, db, n, s)
    requires c + n < |log| && log[c + n] == IfItem(body)
    ensures InterfaceClaimAt(ms, t, c, db, n + 1, Next(IF_DEFAULTS, log, s, Receive(db[n])))
  {
    assert ms[..n + 1][..n] == ms[..n] && db[..n + 1][..n] == db[..n];
    HandleIsRegisterStep(HandleAll(t, ms[..n], db[..n]), ms[n], db[n]);
    MarkOfOneMore(ms, db, s.marked - c, n);
  }

  lemma {:induction false} InterfaceClaimHolds(log: seq<Option<IfEntry>>, s: State<IfKey, Column, Cell>, t: Tables,
                                             db: seq<Outcome>, n: nat)
    requires s.pos + |db| <= |log| && n <= |db|
    requires s.pos == s.marked && s.table == IfAbs(t.interfaces)
    ensures InterfaceClaimAt(InterfaceMessages(log[s.pos..s.pos + |db|]), t, s.pos, db, n,
                             ReceiveMany(IF_DEFAULTS, IfItems(log), s, db, n))
  {
    if n > 0 {
      InterfaceClaimHolds(log, s, t, db, n - 1);
      InterfaceClaimStep(log[s.pos + n - 1], InterfaceMessages(log[s.pos..s.pos + |db|]), t, s.pos, db, n - 1,
                         IfItems(log), ReceiveMany(IF_DEFAULTS, IfItems(log), s, db, n - 1));
    }
  }

  /** A claim of interface messages that begins where the consumer was restarted is a run of the guarded log's
      machine: same table, and the offset marked in the log is the one the claim has marked. */
  lemma InterfaceClaimIsRun(log: seq<Option<IfEntry>>, s: State<IfKey, Column, Cell>, t: Tables, db: seq<Outcome>,
                           marked: nat) returns (states: seq<State<IfKey, Column, Cell>>)
    requires s.pos + |db| <= |log| && s.pos == s.marked && s.table == IfAbs(t.interfaces)
    requires MarksLastSuccess(InterfaceMessages(log[s.pos..s.pos + |db|]), db, marked)
    ensures IsRunFrom(IF_DEFAULTS, IfItems(log), s, states, Receives(db))
    ensures states[|db|].pos == s.pos + |db| && states[|db|].marked == s.pos + marked
    ensures states[|db|].table == IfAbs(HandleAll(t, InterfaceMessages(log[s.pos..s.pos + |db|]), db).interfaces)
  {
    var ms := InterfaceMessages(log[s.pos..s.pos + |db|]);
    states := ReceiveManyIsRun(IF_DEFAULTS, IfItems(log), s, db);
    InterfaceClaimHolds(log, s, t, db, |db|);
    assert ms[..|db|] == ms && db[..|db|] == db;
    OneLastSuccess(ms, db, marked, states[|db|].marked - s.pos);
  }

  /** The machine's state s is the one after the first n messages of a claim that began at offset c. */
  ghost predicate VlanClaimAt(ms: seq<Message>, t: Tables, c: nat, db: seq<Outcome>, n: nat, s: State<VlanKey, Column, Cell>)
    requires |ms| == |db| && n <= |db|
  {
    && s.pos == c + n && c <= s.marked
    && s.table == VlanAbs(HandleAll(t, ms[..n], db[..n]).vlans)
    && MarksLastSuccess(ms[..n], db[..n], s.marked - c)
  }

  lemma VlanClaimStep(body: Option<VlanEntry>, ms: seq<Message>, t: Tables, c: nat, db: seq<Outcome>, n: nat,
                       log: seq<Item<VlanKey, Column, Cell>>, s: State<VlanKey, Column, Cell>)
    requires |ms| == |db| && n < |db| && ms[n] == VlanMessage(body) && VlanClaimAt(ms, t, c, db, n, s)
    requires c + n < |log| && log[c + n] == VlanItem(body)
    ensures VlanClaimAt(ms, t, c, db, n + 1, Next(VLAN_DEFAULTS, log, s, Receive(db[n])))
  {
    assert ms[..n + 1][..n] == ms[..n] && db[..n + 1][..n] == db[..n];
    HandleIsRegisterStep(HandleAll(t, ms[..n], db[..n]), ms[n], db[n]);
    MarkOfOneMore(ms, db, s.marked - c, n);
  }

  lemma {:induction false} VlanClaimHolds(log: seq<Option<VlanEntry>>, s: State<VlanKey, Column, Cell>, t: Tables,
                                             db: seq<Outcome>, n: nat)
    requires s.pos + |db| <= |log| && n <= |db|
    requires s.pos == s.marked && s.table == VlanAbs(t.vlans)
    ensures VlanClaimAt(VlanMessages(log[s.pos..s.pos + |db|]), t, s.pos, db, n,
                             ReceiveMany(VLAN_DEFAULTS, VlanItems(log), s, db, n))
  {
    if n > 0 {
      VlanClaimHolds(log, s, t, db, n - 1);
      VlanClaimStep(log[s.pos + n - 1], VlanMessages(log[s.pos..s.pos + |db|]), t, s.pos, db, n - 1,
                         VlanItems(log), ReceiveMany(VLAN_DEFAULTS, VlanItems(log), s, db, n - 1));
    }
  }

  /** A claim of VLAN messages that begins where the consumer was restarted is a run of the guarded log's
      machine: same table, and the offset marked in the log is the one the claim has marked. */
  lemma VlanClaimIsRun(log: seq<Option<VlanEntry>>, s: State<VlanKey, Column, Cell>, t: Tables, db: seq<Outcome>,
                           marked: nat) returns (states: seq<State<VlanKey, Column, Cell>>)
    requires s.pos + |db| <= |log| && s.pos == s.marked && s.table == VlanAbs(t.vlans)
    requires MarksLastSuccess(VlanMessages(log[s.pos..s.pos + |db|]), db, marked)
    ensures IsRunFrom(VLAN_DEFAULTS, VlanItems(log), s, states, Receives(db))
    ensures states[|db|].pos == s.pos + |db| && states[|db|].marked == s.pos + marked
    ensures states[|db|].table == VlanAbs(HandleAll(t, VlanMessages(log[s.pos..s.pos + |db|]), db).vlans)
  {
    var ms := VlanMessages(log[s.pos..s.pos + |db|]);
    states := ReceiveManyIsRun(VLAN_DEFAULTS, VlanItems(log), s, db);
    VlanClaimHolds(log, s, t, db, |db|);
    assert ms[..|db|] == ms && db[..|db|] == db;
    OneLastSuccess(ms, db, marked, states[|db|].marked - s.pos);
  }

  class Store {
    var interfaces: IfTable
    var vlans: VlanTable

    constructor ()
      ensures State() == Tables(map[], map[])
    {
      interfaces, vlans := map[], map[];
    }

    ghost function State(): Tables
      reads this
    {
      Tables(interfaces, vlans)
    }

    /** ConsumeClaim: messages are handled in order; each success is marked, an error is passed over. */
    method ConsumeClaim(ms: seq<Message>, db: seq<Outcome>) returns (marked: nat)
      requires |ms| == |db|
      modifies this
      ensures State() == HandleAll(old(State()), ms, db)
      ensures MarksLastSuccess(ms, db, marked)
    {
      marked := 0;
      for i := 0 to |ms|
        invariant State() == HandleAll(old(State()), ms[..i], db[..i])
        invariant marked <= i
        invariant marked > 0 ==> Succeeds(ms, db, marked - 1)
        invariant forall j :: marked <= j < i ==> !Succeeds(ms, db, j)
      {
        assert ms[..i + 1][..i] == ms[..i] && db[..i + 1][..i] == db[..i];
        HandleIsRegisterStep(State(), ms[i], db[i]);
        var ok: bool;
        match ms[i] {
          case InterfaceMessage(body) =>
            var result := HandleInterface(interfaces, body, db[i]);
            interfaces, ok := result.0, result.1;
          case VlanMessage(body) =>
            var result := HandleVlan(vlans, body, db[i]);
            vlans, ok := result.0, result.1;
        }
        if ok {
          marked := i + 1;
        }
      }
      assert ms[..|ms|] == ms && db[..|db|] == db;
    }

    /** One tick of the cleanup over both tables: exactly the rows below the cutoff go, and what the guarded
        register makes of a tick is what happens to each table. */
    method CleanupTick(now: int, ttl: int)
      modifies this
      ensures forall k :: k in interfaces <==> k in old(interfaces) && old(interfaces)[k].collectedAt >= now - ttl
      ensures forall k :: k in interfaces ==> interfaces[k] == old(interfaces)[k]
      ensures forall k :: k in vlans <==> k in old(vlans) && old(vlans)[k].collectedAt >= now - ttl
      ensures forall k :: k in vlans ==> vlans[k] == old(vlans)[k]
      ensures IfAbs(interfaces) == DeleteStale(IfAbs(old(interfaces)), now - ttl)
      ensures VlanAbs(vlans) == DeleteStale(VlanAbs(old(vlans)), now - ttl)
    {
      var cutoff := now - ttl;
      interfaces := map k | k in interfaces && !(interfaces[k].collectedAt < cutoff) :: interfaces[k];
      vlans := map k | k in vlans && !(vlans[k].collectedAt < cutoff) :: vlans[k];
    }
  }
}
