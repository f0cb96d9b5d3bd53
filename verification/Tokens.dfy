/** Creating API tokens is a count followed, separately, by an insert. Concurrent requests interleave between
    the two. */
module Tokens {
  import opened Options

  const MAX_ACTIVE: nat := 10
  const MAX_NAME: nat := 100
  const DEFAULT_DAYS := 90
  const MAX_DAYS := 730
  const DAY := 86400

  datatype Token = Token(user: string, expiresAt: Option<int>, revoked: bool)

  /** A request that has passed the count and will insert. */
  datatype Pending = Pending(user: string, expiresAt: Option<int>)

  datatype State = State(tokens: map<nat, Token>, nextId: nat, pending: map<nat, Pending>, now: int)

  const START: State := State(map[], 0, map[], 0)

  datatype Step =
    | Check(request: nat, user: string, nameLength: nat, days: Option<int>)
    | Insert(request: nat)
    | Abandon(request: nat)
    | Revoke(user: string, id: nat)
    | Advance(seconds: nat)

  predicate IsActive(t: Token, user: string, now: int) {
    t.user == user && !t.revoked && (t.expiresAt.None? || t.expiresAt.value > now)
  }

  function ActiveIds(s: State, user: string): set<nat> {
    set id | id in s.tokens && IsActive(s.tokens[id], user, s.now)
  }

  function PendingOf(s: State, user: string): set<nat> {
    set r | r in s.pending && s.pending[r].user == user
  }

  /** Zero days means never. */
  function Expiry(now: int, days: int): Option<int> {
    if days > 0 then Some(now + days * DAY) else None
  }

  function Days(days: Option<int>): int {
    if days.Some? then days.value else DEFAULT_DAYS
  }

  predicate Acceptable(nameLength: nat, days: Option<int>) {
    1 <= nameLength <= MAX_NAME && 0 <= Days(days) <= MAX_DAYS
  }

  /** The first half of the create handler: validation and the count. */
  function DoCheck(s: State, request: nat, user: string, nameLength: nat, days: Option<int>): State {
    if request in s.pending || !Acceptable(nameLength, days) || |ActiveIds(s, user)| >= MAX_ACTIVE then s
    else s.(pending := s.pending[request := Pending(user, Expiry(s.now, Days(days)))])
  }

  /** The second half: the insert. */
  function DoInsert(s: State, request: nat): State {
    if request !in s.pending then s
    else
      var p := s.pending[request];
      s.(tokens := s.tokens[s.nextId := Token(p.user, p.expiresAt, false)], nextId := s.nextId + 1,
         pending := s.pending - {request})
  }

  /** Only a user's own token, and only once. */
  function DoRevoke(s: State, user: string, id: nat): State {
    if id in s.tokens && s.tokens[id].user == user && !s.tokens[id].revoked
    then s.(tokens := s.tokens[id := s.tokens[id].(revoked := true)])
    else s
  }

  function Next(s: State, step: Step): State {
    match step
    case Check(r, user, n, days) => DoCheck(s, r, user, n, days)
    case Insert(r) => DoInsert(s, r)
    case Abandon(r) => s.(pending := s.pending - {r})
    case Revoke(user, id) => DoRevoke(s, user, id)
    case Advance(seconds) => s.(now := s.now + seconds)
  }

  function Run(s: State, steps: seq<Step>): State {
    if steps == [] then s else Next(Run(s, steps[..|steps| - 1]), steps[|steps| - 1])
  }

  /** In no state of the run does a user have more than `limit` requests between count and insert. */
  ghost predicate AtMostPending(steps: seq<Step>, limit: nat) {
    forall n, user :: 0 <= n <= |steps| ==> |PendingOf(Run(START, steps[..n]), user)| <= limit
  }

  // ---- The limit under interleaving ------------------------------------------------------------------------------

  ghost predicate FreshIds(s: State) {
    forall id :: id in s.tokens ==> id < s.nextId
  }

  /** No step but a successful check adds to a user's active tokens and pending inserts taken together. */
  lemma StepBound(s: State, step: Step, user: string)
    requires FreshIds(s)
    ensures FreshIds(Next(s, step))
    ensures var t := Next(s, step);
            || |ActiveIds(t, user)| + |PendingOf(t, user)| <= |ActiveIds(s, user)| + |PendingOf(s, user)|
            || (|ActiveIds(s, user)| < MAX_ACTIVE && ActiveIds(t, user) == ActiveIds(s, user))
  {
    var t := Next(s, step);
    match step
    case Check(r, u, n, days) =>
      assert ActiveIds(t, user) == ActiveIds(s, user);
      if t != s && u != user {
        assert PendingOf(t, user) == PendingOf(s, user);
      }
    case Insert(r) =>
      if r in s.pending {
        InsertBound(s, r, user);
      }
    case Abandon(r) =>
      assert ActiveIds(t, user) == ActiveIds(s, user);
      Fewer(PendingOf(t, user), PendingOf(s, user));
    case Revoke(u, id) =>
      assert PendingOf(t, user) == PendingOf(s, user);
      Fewer(ActiveIds(t, user), ActiveIds(s, user));
    case Advance(_) =>
      assert PendingOf(t, user) == PendingOf(s, user);
      Fewer(ActiveIds(t, user), ActiveIds(s, user));
  }

  lemma Fewer(a: set<nat>, b: set<nat>)
    requires a <= b
    ensures |a| <= |b|
  {
    assert b == a + (b - a);
  }

  lemma InsertBound(s: State, r: nat, user: string)
    requires FreshIds(s) && r in s.pending
    ensures var t := DoInsert(s, r);
            |ActiveIds(t, user)| + |PendingOf(t, user)| <= |ActiveIds(s, user)| + |PendingOf(s, user)|
  {
    var t := DoInsert(s, r);
    if s.pending[r].user == user {
      assert PendingOf(s, user) == PendingOf(t, user) + {r};
      Fewer(ActiveIds(t, user), ActiveIds(s, user) + {s.nextId});
    } else {
      assert PendingOf(t, user) == PendingOf(s, user);
      assert ActiveIds(t, user) == ActiveIds(s, user);
    }
  }

  lemma {:induction false} RunBound(steps: seq<Step>, limit: nat, user: string)
    requires limit >= 1 && AtMostPending(steps, limit)
    ensures FreshIds(Run(START, steps))
    ensures |ActiveIds(Run(START, steps), user)| + |PendingOf(Run(START, steps), user)| <= MAX_ACTIVE - 1 + limit
  {
    if steps == [] {
      assert ActiveIds(START, user) == {} && PendingOf(START, user) == {};
    } else {
      var init := steps[..|steps| - 1];
      forall n, u | 0 <= n <= |init|
        ensures |PendingOf(Run(START, init[..n]), u)| <= limit
      {
        assert init[..n] == steps[..n];
      }
      RunBound(init, limit, user);
      StepBound(Run(START, init), steps[|steps| - 1], user);
      assert steps[..|steps|] == steps;
      assert |PendingOf(Run(START, steps[..|steps|]), user)| <= limit;
    }
  }

  /** With at most K of a user's requests between count and insert at any time, active tokens and pending
      inserts together never exceed 9 + K, over every run of counts, inserts, failures, revocations and the
      passing of time. */
  lemma ActivePlusPendingIsBounded(steps: seq<Step>, limit: nat, user: string, n: nat)
    requires limit >= 1 && AtMostPending(steps, limit) && n <= |steps|
    ensures |ActiveIds(Run(START, steps[..n]), user)| + |PendingOf(Run(START, steps[..n]), user)| <= 9 + limit
  {
    forall m, u | 0 <= m <= n
      ensures |PendingOf(Run(START, steps[..n][..m]), u)| <= limit
    {
      assert steps[..n][..m] == steps[..m];
    }
    RunBound(steps[..n], limit, user);
  }

  /** Serial creations keep the documented limit. */
  lemma SerialCreationsKeepTheLimit(steps: seq<Step>, user: string, n: nat)
    requires AtMostPending(steps, 1) && n <= |steps|
    ensures |ActiveIds(Run(START, steps[..n]), user)| <= 10
  {
    ActivePlusPendingIsBounded(steps, 1, user, n);
  }

  /** A revoked token stays revoked: no later step of any request makes it active again. */
  lemma {:induction false} RevocationIsFinal(s: State, steps: seq<Step>, id: nat, user: string)
    requires FreshIds(s) && id in s.tokens && s.tokens[id].revoked
    ensures FreshIds(Run(s, steps))
    ensures id in Run(s, steps).tokens && Run(s, steps).tokens[id].revoked && id !in ActiveIds(Run(s, steps), user)
  {
    if steps != [] {
      RevocationIsFinal(s, steps[..|steps| - 1], id, user);
      StepBound(Run(s, steps[..|steps| - 1]), steps[|steps| - 1], user);
    }
  }

  // ---- The life of a token -----------------------------------------------------------------------------------------

  /** A token is revoked by its owner's request for it, and by no other step. */
  lemma RevokedIff(s: State, step: Step, id: nat)
    requires FreshIds(s) && id in s.tokens && !s.tokens[id].revoked
    ensures id in Next(s, step).tokens
    ensures Next(s, step).tokens[id].revoked <==> step == Revoke(s.tokens[id].user, id)
  {
  }

  /** The time that passes in a run. */
  function Elapsed(steps: seq<Step>): nat {
    if steps == [] then 0
    else Elapsed(steps[..|steps| - 1]) + if steps[|steps| - 1].Advance? then steps[|steps| - 1].seconds else 0
  }

  /** What a run can do to a token: its owner can revoke it, and time goes on. */
  lemma {:induction false} TokenAfter(s: State, steps: seq<Step>, id: nat)
    requires FreshIds(s) && id in s.tokens
    ensures FreshIds(Run(s, steps)) && id in Run(s, steps).tokens
    ensures Run(s, steps).now == s.now + Elapsed(steps)
    ensures Run(s, steps).tokens[id] ==
            s.tokens[id].(revoked := s.tokens[id].revoked || Revoke(s.tokens[id].user, id) in steps)
  {
    if steps != [] {
      var init, last := steps[..|steps| - 1], steps[|steps| - 1];
      TokenAfter(s, init, id);
      StepBound(Run(s, init), last, s.tokens[id].user);
      assert forall step :: step in steps <==> step in init || step == last;
    }
  }

  /** Over every continuation a token is active for a user exactly when the user owns it, it was not revoked
      before, the owner does not revoke it, and its expiry, if it has one, is still to come. */
  lemma ActiveIff(s: State, steps: seq<Step>, id: nat, user: string)
    requires FreshIds(s) && id in s.tokens
    ensures id in ActiveIds(Run(s, steps), user) <==>
            && user == s.tokens[id].user && !s.tokens[id].revoked && Revoke(user, id) !in steps
            && (s.tokens[id].expiresAt.None? || s.now + Elapsed(steps) < s.tokens[id].expiresAt.value)
  {
    TokenAfter(s, steps, id);
  }

  /** A request for a token: the name has 1 to 100 characters, the days, 90 if not given, are 0 to 730, and
      the user has fewer than ten active tokens. */
  ghost predicate Grants(s: State, user: string, nameLength: nat, days: Option<int>) {
    && 1 <= nameLength <= 100
    && (days.Some? ==> 0 <= days.value <= 730)
    && |ActiveIds(s, user)| < 10
  }

  /** A request that is granted leads to a token of that user alone, active from the insert on until the days
      have passed since the check, forever if they are 0, or until the user revokes it; one that is not
      granted changes nothing. */
  lemma CreatedTokenIsActiveIff(s: State, request: nat, user: string, nameLength: nat, days: Option<int>, wait: nat,
                                steps: seq<Step>, other: string)
    requires FreshIds(s) && request !in s.pending
    ensures !Grants(s, user, nameLength, days) ==> Next(s, Check(request, user, nameLength, days)) == s
    ensures var t := Next(Next(Next(s, Check(request, user, nameLength, days)), Advance(wait)), Insert(request));
            var d := if days.Some? then days.value else 90;
            Grants(s, user, nameLength, days) ==>
              (s.nextId in ActiveIds(Run(t, steps), other) <==>
               other == user && Revoke(user, s.nextId) !in steps && (d == 0 || wait + Elapsed(steps) < d * 86400))
  {
    var t := Next(Next(Next(s, Check(request, user, nameLength, days)), Advance(wait)), Insert(request));
    if Grants(s, user, nameLength, days) {
      assert FreshIds(t) && s.nextId in t.tokens;
      ActiveIff(t, steps, s.nextId, other);
    }
  }

  // ---- The bound is reached -----------------------------------------------------------------------------------------

  /** A run that ends with `active` never-expiring tokens of one user, and requests lo, .., hi - 1 pending. */
  ghost predicate Built(steps: seq<Step>, limit: nat, user: string, active: nat, lo: nat, hi: nat) {
    var s := Run(START, steps);
    && AtMostPending(steps, limit)
    && FreshIds(s) && s.now == 0
    && |ActiveIds(s, user)| == active
    && (forall r :: r in s.pending <==> lo <= r < hi)
    && (forall r :: r in s.pending ==> s.pending[r] == Pending(user, None))
  }

  lemma {:induction false} RangeSize(lo: nat, hi: nat, s: set<nat>)
    requires lo <= hi && forall r :: r in s <==> lo <= r < hi
    ensures |s| == hi - lo
    decreases hi - lo
  {
    if lo == hi {
      assert s == {};
    } else {
      RangeSize(lo, hi - 1, s - {hi - 1});
    }
  }

  lemma PendingSize(s: State, user: string, other: string, lo: nat, hi: nat)
    requires lo <= hi
    requires forall r :: r in s.pending <==> lo <= r < hi
    requires forall r :: r in s.pending ==> s.pending[r] == Pending(user, None)
    ensures |PendingOf(s, other)| <= hi - lo
  {
    if other == user {
      RangeSize(lo, hi, PendingOf(s, other));
    } else {
      assert PendingOf(s, other) == {};
    }
  }

  lemma Extend(steps: seq<Step>, step: Step, limit: nat)
    requires AtMostPending(steps, limit)
    requires forall u :: |PendingOf(Next(Run(START, steps), step), u)| <= limit
    ensures Run(START, steps + [step]) == Next(Run(START, steps), step)
    ensures AtMostPending(steps + [step], limit)
  {
    var more := steps + [step];
    assert more[..|more| - 1] == steps;
    forall n, u | 0 <= n <= |more|
      ensures |PendingOf(Run(START, more[..n]), u)| <= limit
    {
      if n <= |steps| {
        assert more[..n] == steps[..n];
      } else {
        assert more[..n] == more;
      }
    }
  }

  lemma BuildCheck(steps: seq<Step>, limit: nat, user: string, active: nat, lo: nat, hi: nat) returns (more: seq<Step>)
    requires Built(steps, limit, user, active, lo, hi) && lo <= hi && active < MAX_ACTIVE && hi + 1 - lo <= limit
    ensures Built(more, limit, user, active, lo, hi + 1)
  {
    var s, step := Run(START, steps), Check(hi, user, 1, Some(0));
    var t := Next(s, step);
    forall u
      ensures |PendingOf(t, u)| <= limit
    {
      PendingSize(t, user, u, lo, hi + 1);
    }
    Extend(steps, step, limit);
    assert ActiveIds(t, user) == ActiveIds(s, user);
    more := steps + [step];
  }

  lemma BuildInsert(steps: seq<Step>, limit: nat, user: string, active: nat, lo: nat, hi: nat) returns (more: seq<Step>)
    requires Built(steps, limit, user, active, lo, hi) && lo < hi && hi - lo <= limit
    ensures Built(more, limit, user, active + 1, lo + 1, hi)
  {
    var s, step := Run(START, steps), Insert(lo);
    var t := Next(s, step);
    forall u
      ensures |PendingOf(t, u)| <= limit
    {
      PendingSize(t, user, u, lo + 1, hi);
    }
    Extend(steps, step, limit);
    assert ActiveIds(t, user) == ActiveIds(s, user) + {s.nextId};
    more := steps + [step];
  }

  /** For every K the bound is reached: nine tokens made one after another, then K requests that all count
      before any of them inserts. So more than one concurrent request breaks the limit of ten. */
  lemma BoundIsReached(limit: nat, user: string) returns (steps: seq<Step>)
    requires limit >= 1
    ensures AtMostPending(steps, limit)
    ensures |ActiveIds(Run(START, steps), user)| == 9 + limit
  {
    steps := [];
    assert ActiveIds(START, user) == {} && forall u :: PendingOf(START, u) == {};
    for i := 0 to 9
      invariant Built(steps, limit, user, i, i, i)
    {
      steps := BuildCheck(steps, limit, user, i, i, i);
      steps := BuildInsert(steps, limit, user, i, i, i + 1);
    }
    for i := 0 to limit
      invariant Built(steps, limit, user, 9, 9, 9 + i)
    {
      steps := BuildCheck(steps, limit, user, 9, 9, 9 + i);
    }
    for i := 0 to limit
      invariant Built(steps, limit, user, 9 + i, 9 + i, 9 + limit)
    {
      steps := BuildInsert(steps, limit, user, 9 + i, 9 + i, 9 + limit);
    }
  }

  // ---- The handlers -------------------------------------------------------------------------------------------------

  datatype Response = BadRequest | Conflict | Pass(expiresAt: Option<int>) | NoContent | NotFound

  class TokenTable {
    var tokens: map<nat, Token>
    var nextId: nat
    var pending: map<nat, Pending>
    var now: int

    ghost function Abs(): State
      reads this
    {
      State(tokens, nextId, pending, now)
    }

    constructor ()
      ensures Abs() == START
    {
      tokens, nextId, pending, now := map[], 0, map[], 0;
    }

    /** SELECT COUNT(*) over the user's active tokens. */
    method CountActive(user: string) returns (count: nat)
      ensures count == |ActiveIds(Abs(), user)|
    {
      count := 0;
      var rest := tokens.Keys;
      while rest != {}
        invariant rest <= tokens.Keys
        invariant count == |ActiveIds(Abs(), user) - rest|
        decreases rest
      {
        var id :| id in rest;
        if IsActive(tokens[id], user, now) {
          assert ActiveIds(Abs(), user) - (rest - {id}) == (ActiveIds(Abs(), user) - rest) + {id};
          count := count + 1;
        } else {
          assert ActiveIds(Abs(), user) - (rest - {id}) == ActiveIds(Abs(), user) - rest;
        }
        rest := rest - {id};
      }
      assert ActiveIds(Abs(), user) - rest == ActiveIds(Abs(), user);
    }

    /** CreateHandler up to the insert: the request is refused, or is about to insert. */
    method CreateCheck(request: nat, user: string, nameLength: nat, days: Option<int>) returns (response: Response)
      requires request !in pending
      modifies `pending
      ensures Abs() == DoCheck(old(Abs()), request, user, nameLength, days)
      ensures response.Pass? <==> request in pending
      ensures response.BadRequest? <==> nameLength == 0 || nameLength > 100 || (days.Some? && !(0 <= days.value <= 730))
      ensures response.Conflict? <==> !response.BadRequest? && |ActiveIds(old(Abs()), user)| >= 10
      ensures !response.Pass? ==> pending == old(pending)
      ensures response.Pass? ==> var d := if days.Some? then days.value else 90;
                                 && response.expiresAt == (if d == 0 then None else Some(now + d * 86400))
                                 && pending == old(pending)[request := Pending(user, response.expiresAt)]
    {
      if nameLength == 0 || nameLength > MAX_NAME {
        return BadRequest;
      }
      var d := if days.Some? then days.value else DEFAULT_DAYS;
      if d < 0 || d > MAX_DAYS {
        return BadRequest;
      }
      var expiresAt := if d > 0 then Some(now + d * DAY) else None;
      var active := CountActive(user);
      if active >= MAX_ACTIVE {
        return Conflict;
      }
      pending := pending[request := Pending(user, expiresAt)];
      return Pass(expiresAt);
    }

    /** CreateHandler's insert, at any later time. */
    method CreateInsert(request: nat) returns (id: nat)
      requires request in pending
      modifies this
      ensures Abs() == DoInsert(old(Abs()), request)
      ensures id == old(nextId)
      ensures var p := old(pending)[request];
              tokens == old(tokens)[id := Token(p.user, p.expiresAt, false)] && pending == old(pending) - {request}
    {
      id := nextId;
      var p := pending[request];
      tokens := tokens[id := Token(p.user, p.expiresAt, false)];
      nextId := nextId + 1;
      pending := pending - {request};
    }

    /** RevokeHandler: not found when the token is absent, another user's, or already revoked. */
    method RevokeToken(user: string, id: nat) returns (response: Response)
      modifies `tokens
      ensures Abs() == DoRevoke(old(Abs()), user, id)
      ensures response == if id !in old(tokens) || old(tokens)[id].user != user || old(tokens)[id].revoked
                          then NotFound else NoContent
      ensures response.NotFound? ==> tokens == old(tokens)
      ensures response.NoContent? ==> tokens == old(tokens)[id := Token(user, old(tokens)[id].expiresAt, true)]
    {
      if id !in tokens || tokens[id].user != user || tokens[id].revoked {
        return NotFound;
      }
      var revoked := tokens[id].(revoked := true);
      tokens := tokens[id := revoked];
      return NoContent;
    }
  }
}
