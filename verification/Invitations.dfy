/** The invitation lifecycle of `src/invitation/store.rs`: create, open, accept, revoke and expire,
    and how often an invitation can be redeemed over any run of them. */
module Invitations {
  import opened Wrappers

  const TICKS_PER_SECOND: int := 1_000_000_000
  const DEFAULT_TTL_SECS: int := 604800
  const OPEN_WINDOW_SECS: int := 300

  datatype Result<T> = Ok(value: T) | Err(error: InvitationError)

  datatype InvitationError =
    | NotFound
    | AlreadyUsed
    | Expired
    | OpenWindowExpired(remaining: int)
    | IpMismatch
    | InvalidStatus(status: Status)
    | Other

  datatype Status = Pending | Opened | Accepted | PastExpiry | Revoked | Exhausted

  datatype Mode = Approval | Direct

  type U16 = n: int | 0 <= n < 0x1_0000

  /** Times are in ticks, finer than the seconds in which the open window is counted. */
  datatype Invitation = Invitation(
    token: string, groupId: nat, role: string, mode: Mode, maxUses: U16, useCount: U16, status: Status,
    openedAt: Option<int>, openedIp: Option<string>, openedUa: Option<string>, expiresAt: int,
    acceptedAt: Option<int>, acceptedBy: Option<nat>)

  datatype Params = Params(groupId: nat, mode: Mode, role: Option<string>, maxUses: Option<U16>, ttlSecs: Option<nat>)

  type Table = map<nat, Invitation>

  // ---------- one invitation ----------

  predicate Live(inv: Invitation) { inv.status == Pending || inv.status == Opened }

  /** How many times it can be accepted: a limit of none still allows one. */
  function Limit(inv: Invitation): U16 { if inv.maxUses < 1 then 1 else inv.maxUses }

  /** Never over its limit, and only live below it. */
  ghost predicate Bounded(inv: Invitation) {
    && inv.useCount <= Limit(inv) && (Live(inv) ==> inv.useCount < Limit(inv))
    && (inv.status == Accepted ==> inv.useCount == Limit(inv)) && inv.status != Exhausted
  }

  /** Whole seconds, towards zero. */
  function NumSeconds(ticks: int): int {
    if ticks >= 0 then ticks / TICKS_PER_SECOND else -((-ticks) / TICKS_PER_SECOND)
  }

  function Created(token: string, p: Params, now: int): Invitation {
    Invitation(token, p.groupId, if p.role.Some? then p.role.value else "member", p.mode,
               if p.maxUses.Some? then p.maxUses.value else 1, 0, Pending, None, None, None,
               now + (if p.ttlSecs.Some? then p.ttlSecs.value else DEFAULT_TTL_SECS) * TICKS_PER_SECOND, None, None)
  }

  /** The invitation after it was opened, and the seconds left. */
  function OpenOne(inv: Invitation, ip: Option<string>, ua: Option<string>, now: int): (Invitation, Result<int>) {
    if inv.mode != Direct then (inv, Err(Other))
    else if now > inv.expiresAt then (inv.(status := PastExpiry), Err(Expired))
    else if !Live(inv) then (inv, Err(InvalidStatus(inv.status)))
    else
      var seen := if inv.openedAt.Some? then inv
                  else inv.(openedAt := Some(now), openedIp := ip, openedUa := ua, status := Opened);
      var remaining := OPEN_WINDOW_SECS - NumSeconds(now - seen.openedAt.value);
      if remaining <= 0 then (seen.(status := PastExpiry), Err(OpenWindowExpired(remaining)))
      else (seen, Ok(remaining))
  }

  predicate WindowOver(inv: Invitation, now: int) {
    inv.openedAt.Some? && NumSeconds(now - inv.openedAt.value) > OPEN_WINDOW_SECS
  }

  predicate WrongIp(inv: Invitation, ip: Option<string>) { inv.openedIp.Some? && ip.Some? && inv.openedIp != ip }

  function AcceptOne(inv: Invitation, ip: Option<string>, user: nat, now: int): (Invitation, Result<(nat, string)>)
    requires Bounded(inv)
  {
    if !Live(inv) then (inv, Err(if inv.status == PastExpiry then Expired else AlreadyUsed))
    else if now > inv.expiresAt then (inv.(status := PastExpiry), Err(Expired))
    else if inv.mode == Direct && WindowOver(inv, now) then (inv.(status := PastExpiry), Err(OpenWindowExpired(0)))
    else if inv.mode == Direct && WrongIp(inv, ip) then (inv, Err(IpMismatch))
    else
      var used := inv.(useCount := inv.useCount + 1);
      (used.(status := if used.useCount >= used.maxUses then Accepted
       else used.status, acceptedAt := Some(now), acceptedBy := Some(user)),
       Ok((inv.groupId, inv.role)))
  }

  function Swept(inv: Invitation, now: int): Invitation {
    if Live(inv) && now > inv.expiresAt then inv.(status := PastExpiry) else inv
  }

  // ---------- the store ----------

  class InMemoryInvitationStore {
    var inner: Table
    var tokenIndex: map<string, nat>

    ghost predicate Valid()
      reads this
    {
      WellFormed(Store(inner, tokenIndex))
    }

    ghost function Value(): Store
      reads this
    {
      Store(inner, tokenIndex)
    }

    constructor ()
      ensures Valid() && Value() == EMPTY
    {
      inner := map[];
      tokenIndex := map[];
    }

    method Create(id: nat, token: string, p: Params, now: int) returns (inv: Invitation)
      requires Valid() && id !in inner && token !in tokenIndex
      modifies this
      ensures Valid() && inv == Created(token, p, now)
              && Value() == After(old(Value()), Event.Create(id, token, p, now))
      ensures inv.token == token && inv.groupId == p.groupId && inv.mode == p.mode && inv.status == Pending
      ensures inv.role == (match p.role case Some(role) => role case None => "member")
      ensures inv.maxUses == (match p.maxUses case Some(n) => n case None => 1) && inv.useCount == 0
      ensures inv.expiresAt == now + (match p.ttlSecs case Some(secs) => secs case None => 604_800) * 1_000_000_000
      ensures inv.openedAt.None? && inv.openedIp.None? && inv.openedUa.None? && inv.acceptedAt.None?
    {
      inv := Created(token, p, now);
      inner := inner[id := inv];
      tokenIndex := tokenIndex[token := id];
    }

    method Open(token: string, ip: Option<string>, ua: Option<string>, now: int) returns (r: Result<int>)
      requires Valid()
      modifies this`inner
      ensures Valid() && Value() == After(old(Value()), Event.Open(token, ip, ua, now))
      ensures r == if token in tokenIndex then OpenOne(old(inner)[tokenIndex[token]], ip, ua, now).1 else Err(NotFound)
    {
      hide WellFormed, NumSeconds, Bounded;
      EventKeepsStore(Value(), Event.Open(token, ip, ua, now));
      Names(Value(), token);
      if token !in tokenIndex {
        return Err(NotFound);
      }
      var id := tokenIndex[token];
      var inv := inner[id];
      if inv.mode != Direct {
        return Err(Other);
      }
      if now > inv.expiresAt {
        inner := inner[id := inv.(status := PastExpiry)];
        return Err(Expired);
      }
      if inv.status != Pending && inv.status != Opened {
        return Err(InvalidStatus(inv.status));
      }
      if inv.openedAt.None? {
        inv := inv.(openedAt := Some(now), openedIp := ip, openedUa := ua, status := Opened);
        inner := inner[id := inv];
      }
      var elapsed := NumSeconds(now - inv.openedAt.value);
      var remaining := OPEN_WINDOW_SECS - elapsed;
      if remaining <= 0 {
        inner := inner[id := inv.(status := PastExpiry)];
        assert inner == old(inner)[id := inv.(status := PastExpiry)];
        return Err(OpenWindowExpired(remaining));
      }
      return Ok(remaining);
    }

    /** The 16-bit count never overflows. */
    method Accept(token: string, ip: Option<string>, user: nat, now: int) returns (r: Result<(nat, string)>)
      requires Valid()
      modifies this`inner
      ensures Valid() && Value() == After(old(Value()), Event.Accept(token, ip, user, now))
      ensures r == if token in tokenIndex then AcceptOne(old(inner)[tokenIndex[token]], ip, user, now).1
                   else Err(NotFound)
    {
      hide WellFormed, NumSeconds;
      EventKeepsStore(Value(), Event.Accept(token, ip, user, now));
      Names(Value(), token);
      if token !in tokenIndex {
        return Err(NotFound);
      }
      var id := tokenIndex[token];
      var inv := inner[id];
      match inv.status {
        case Pending | Opened =>
        case PastExpiry => return Err(Expired);
        case Accepted | Revoked | Exhausted => return Err(AlreadyUsed);
      }
      if now > inv.expiresAt {
        inner := inner[id := inv.(status := PastExpiry)];
        return Err(Expired);
      }
      if inv.mode == Direct {
        if inv.openedAt.Some? && NumSeconds(now - inv.openedAt.value) > OPEN_WINDOW_SECS {
          inner := inner[id := inv.(status := PastExpiry)];
          return Err(OpenWindowExpired(0));
        }
        if inv.openedIp.Some? && ip.Some? && inv.openedIp.value != ip.value {
          return Err(IpMismatch);
        }
      }
      inv := inv.(useCount := inv.useCount + 1);
      if inv.useCount >= inv.maxUses {
        inv := inv.(status := Accepted);
      }
      inv := inv.(acceptedAt := Some(now), acceptedBy := Some(user));
      inner := inner[id := inv];
      return Ok((inv.groupId, inv.role));
    }

    method Revoke(token: string) returns (r: Result<()>)
      requires Valid()
      modifies this`inner
      ensures Valid() && Value() == After(old(Value()), Event.Revoke(token))
      ensures r == if token in tokenIndex then Ok(()) else Err(NotFound)
      ensures inner == if token !in tokenIndex then old(inner)
                       else old(inner)[tokenIndex[token] := old(inner)[tokenIndex[token]].(status := Revoked)]
    {
      EventKeepsStore(Value(), Event.Revoke(token));
      if token !in tokenIndex {
        return Err(NotFound);
      }
      var id := tokenIndex[token];
      if inner[id].status != Revoked {
        inner := inner[id := inner[id].(status := Revoked)];
      }
      return Ok(());
    }

    method ExpireStale(now: int) returns (count: nat)
      requires Valid()
      modifies this`inner
      ensures Valid() && Value() == After(old(Value()), Event.ExpireStale(now))
      ensures count == |set id | id in old(inner) && Live(old(inner)[id]) && now > old(inner)[id].expiresAt|
      ensures inner.Keys == old(inner).Keys
      ensures forall id :: id in inner && old(inner)[id].status in {Pending, Opened} && now > old(inner)[id].expiresAt
                           ==> inner[id] == old(inner)[id].(status := PastExpiry)
      ensures forall id :: id in inner
                           && (old(inner)[id].status !in {Pending, Opened} || now <= old(inner)[id].expiresAt)
                           ==> inner[id] == old(inner)[id]
    {
      hide WellFormed, PartlySwept, StaleOutside, After, Swept, Bounded, Live;
      EventKeepsStore(Value(), Event.ExpireStale(now));
      ghost var before := inner;
      count := 0;
      var rest := inner.Keys;
      SweepStarts(before, now);
      while rest != {}
        invariant rest <= before.Keys && inner == PartlySwept(before, rest, now)
                  && count == |StaleOutside(before, rest, now)|
        decreases |rest|
      {
        var id :| id in rest;
        SweepStep(before, rest, id, now);
        rest := rest - {id};
        var inv := inner[id];
        if (inv.status == Pending || inv.status == Opened) && now > inv.expiresAt {
          inner := inner[id := inv.(status := PastExpiry)];
          count := count + 1;
        }
      }
      SweepEnds(Store(before, tokenIndex), now);
      SweptOnly(before, now);
      assert rest == {};
    }
  }

  /** Swept except for the ids in `rest`. */
  ghost function PartlySwept(before: Table, rest: set<nat>, now: int): Table {
    map id | id in before :: if id in rest then before[id] else Swept(before[id], now)
  }

  ghost function StaleOutside(before: Table, rest: set<nat>, now: int): set<nat> {
    set id | id in before && id !in rest && Live(before[id]) && now > before[id].expiresAt
  }

  lemma SweptOnly(before: Table, now: int)
    ensures PartlySwept(before, {}, now).Keys == before.Keys
    ensures forall id :: id in before && before[id].status in {Pending, Opened} && now > before[id].expiresAt
                         ==> PartlySwept(before, {}, now)[id] == before[id].(status := PastExpiry)
    ensures forall id :: id in before && !(before[id].status in {Pending, Opened} && now > before[id].expiresAt)
                         ==> PartlySwept(before, {}, now)[id] == before[id]
  {
  }

  lemma SweepStarts(before: Table, now: int)
    ensures PartlySwept(before, before.Keys, now) == before && StaleOutside(before, before.Keys, now) == {}
  {
  }

  lemma SweepStep(before: Table, rest: set<nat>, id: nat, now: int)
    requires id in rest && rest <= before.Keys
    ensures var inner, inv := PartlySwept(before, rest, now), before[id];
            && id in inner && inner[id] == inv
            && (if (inv.status == Pending || inv.status == Opened) && now > inv.expiresAt
                then && PartlySwept(before, rest - {id}, now) == inner[id := inv.(status := PastExpiry)]
                     && |StaleOutside(before, rest - {id}, now)| == |StaleOutside(before, rest, now)| + 1
                else && PartlySwept(before, rest - {id}, now) == inner
                     && StaleOutside(before, rest - {id}, now) == StaleOutside(before, rest, now))
  {
    if Live(before[id]) && now > before[id].expiresAt {
      assert StaleOutside(before, rest - {id}, now) == StaleOutside(before, rest, now) + {id};
    }
  }

  lemma SweepEnds(s: Store, now: int)
    requires WellFormed(s)
    ensures s.(inner := PartlySwept(s.inner, {}, now)) == After(s, Event.ExpireStale(now))
    ensures StaleOutside(s.inner, {}, now) == set id | id in s.inner && Live(s.inner[id]) && now > s.inner[id].expiresAt
  {
  }

  // ---------- runs ----------

  datatype Store = Store(inner: Table, index: map<string, nat>)

  const EMPTY := Store(map[], map[])

  datatype Event =
    | Create(id: nat, token: string, params: Params, now: int)
    | Open(token: string, ip: Option<string>, ua: Option<string>, now: int)
    | Accept(token: string, ip: Option<string>, user: nat, now: int)
    | Revoke(token: string)
    | ExpireStale(now: int)

  /** Every token names an invitation with that token, and every invitation is within bounds. */
  ghost predicate WellFormed(s: Store) {
    && (forall t :: t in s.index ==> s.index[t] in s.inner && s.inner[s.index[t]].token == t)
    && (forall id :: id in s.inner ==> Bounded(s.inner[id]))
  }

  lemma Names(s: Store, token: string)
    requires WellFormed(s)
    ensures token in s.index ==> s.index[token] in s.inner && Bounded(s.inner[s.index[token]])
  {
  }

  /** Ids and tokens are drawn fresh. */
  predicate Possible(s: Store, e: Event) { e.Create? ==> e.id !in s.inner && e.token !in s.index }

  /** An event replaces at most the invitation that its token names. */
  ghost function After(s: Store, e: Event): Store
    requires WellFormed(s)
  {
    match e
    case Create(id, token, p, now) => Store(s.inner[id := Created(token, p, now)], s.index[token := id])
    case ExpireStale(now) => s.(inner := map id | id in s.inner :: Swept(s.inner[id], now))
    case _ =>
      if e.token !in s.index then s
      else s.(inner := s.inner[s.index[e.token] := Touched(s.inner[s.index[e.token]], e)])
  }

  ghost function Touched(inv: Invitation, e: Event): Invitation
    requires Bounded(inv)
  {
    match e
    case Open(_, ip, ua, now) => OpenOne(inv, ip, ua, now).0
    case Accept(_, ip, user, now) => AcceptOne(inv, ip, user, now).0
    case Revoke(_) => inv.(status := Revoked)
    case _ => inv
  }

  /** The event is an acceptance of this token, and it succeeds. */
  ghost predicate Redeems(s: Store, e: Event, token: string)
    requires WellFormed(s)
  {
    e.Accept? && e.token == token && token in s.index && AcceptOne(s.inner[s.index[token]], e.ip, e.user, e.now).1.Ok?
  }

  lemma TouchKeepsBounds(inv: Invitation, e: Event)
    requires Bounded(inv)
    ensures var after := Touched(inv, e);
            && Bounded(after) && after.token == inv.token && after.maxUses == inv.maxUses
            && (!Live(inv) ==> !Live(after))
            && after.useCount == inv.useCount + if e.Accept? && AcceptOne(inv, e.ip, e.user, e.now).1.Ok? then 1 else 0
  {
  }

  lemma EventKeepsStore(s: Store, e: Event)
    requires WellFormed(s) && Possible(s, e)
    ensures WellFormed(After(s, e))
  {
    hide Touched, Bounded, Created, Swept;
    match e
    case Create(id, token, p, now) => CreatedBounded(token, p, now);
    case ExpireStale(now) =>
      forall id | id in s.inner
        ensures Bounded(Swept(s.inner[id], now)) && Swept(s.inner[id], now).token == s.inner[id].token {
        SweptBounded(s.inner[id], now);
      }
    case _ =>
      if e.token in s.index {
        TouchKeepsBounds(s.inner[s.index[e.token]], e);
      }
  }

  lemma CreatedBounded(token: string, p: Params, now: int)
    ensures Bounded(Created(token, p, now)) && Created(token, p, now).useCount == 0
            && Created(token, p, now).token == token
  {
  }

  lemma SweptBounded(inv: Invitation, now: int)
    requires Bounded(inv)
    ensures Bounded(Swept(inv, now)) && Swept(inv, now).token == inv.token && Swept(inv, now).useCount == inv.useCount
    ensures !Live(inv) ==> !Live(Swept(inv, now))
  {
  }

  ghost function UsesOf(s: Store, token: string): nat
    requires WellFormed(s)
  {
    if token in s.index then s.inner[s.index[token]].useCount else 0
  }

  ghost predicate Finished(s: Store, token: string)
    requires WellFormed(s)
  {
    token in s.index && !Live(s.inner[s.index[token]])
  }

  /** One step: the uses of every token grow by one exactly for a successful acceptance of that
      token, and what is finished stays finished. */
  lemma StepCounts(s: Store, e: Event, token: string)
    requires WellFormed(s) && Possible(s, e)
    ensures WellFormed(After(s, e))
    ensures UsesOf(After(s, e), token) == UsesOf(s, token) + if Redeems(s, e, token) then 1 else 0
    ensures Finished(s, token) ==> Finished(After(s, e), token) && !Redeems(s, e, token)
  {
    hide Touched, Bounded, Swept, Created;
    EventKeepsStore(s, e);
    match e
    case Create(id, t, p, now) => CreatedBounded(t, p, now);
    case ExpireStale(now) =>
      if token in s.index {
        SweptBounded(s.inner[s.index[token]], now);
      }
    case _ =>
      if e.token in s.index {
        TouchKeepsBounds(s.inner[s.index[e.token]], e);
      }
  }

  ghost predicate Run(s: Store, events: seq<Event>)
    requires WellFormed(s)
    decreases |events|
  {
    events == [] || (Possible(s, events[0]) && (EventKeepsStore(s, events[0]); Run(After(s, events[0]), events[1..])))
  }

  ghost function Final(s: Store, events: seq<Event>): (f: Store)
    requires WellFormed(s) && Run(s, events)
    ensures WellFormed(f)
    decreases |events|
  {
    if events == [] then s
    else
      EventKeepsStore(s, events[0]);
      Final(After(s, events[0]), events[1..])
  }

  /** How many acceptances of the token succeed in the run. */
  ghost function Redemptions(s: Store, events: seq<Event>, token: string): nat
    requires WellFormed(s) && Run(s, events)
    decreases |events|
  {
    if events == [] then 0
    else
      EventKeepsStore(s, events[0]);
      (if Redeems(s, events[0], token) then 1 else 0) + Redemptions(After(s, events[0]), events[1..], token)
  }

  lemma {:induction false} RunCounts(s: Store, events: seq<Event>, token: string)
    requires WellFormed(s) && Run(s, events)
    ensures UsesOf(Final(s, events), token) == UsesOf(s, token) + Redemptions(s, events, token)
    ensures Finished(s, token) ==> Finished(Final(s, events), token) && Redemptions(s, events, token) == 0
    decreases |events|
  {
    hide UsesOf, Finished, After, Possible, Redeems;
    if events != [] {
      StepCounts(s, events[0], token);
      RunCounts(After(s, events[0]), events[1..], token);
    }
  }

  /** From the empty store, over any run: an invitation has been redeemed exactly `useCount`
      times, never more often than its limit, and less often than that while it is live. */
  lemma RedeemedAtMostLimit(events: seq<Event>, token: string)
    requires WellFormed(EMPTY) && Run(EMPTY, events) && token in Final(EMPTY, events).index
    ensures var inv := Final(EMPTY, events).inner[Final(EMPTY, events).index[token]];
            && Redemptions(EMPTY, events, token) == inv.useCount <= Limit(inv)
            && (Live(inv) ==> Redemptions(EMPTY, events, token) < Limit(inv))
            && (inv.status == Accepted ==> Redemptions(EMPTY, events, token) == Limit(inv))
            && inv.status != Exhausted
  {
    RunCounts(EMPTY, events, token);
  }

  /** Once an invitation has left Pending and Opened it never comes back, and nothing redeems it. */
  lemma FinishedForGood(s: Store, events: seq<Event>, token: string)
    requires WellFormed(s) && Run(s, events) && Finished(s, token)
    ensures Finished(Final(s, events), token) && Redemptions(s, events, token) == 0
  {
    RunCounts(s, events, token);
  }

  /** Exactly which invitations open, what each refusal says, and what is left: the first opening is
      recorded for good, and what is found over is marked so. */
  lemma OpensExactly(inv: Invitation, ip: Option<string>, ua: Option<string>, now: int)
    ensures var (after, r) := OpenOne(inv, ip, ua, now);
            var at := if inv.openedAt.Some? then inv.openedAt.value else now;
            var seen := if inv.openedAt.Some? then inv
                        else inv.(openedAt := Some(now), openedIp := ip, openedUa := ua, status := Opened);
            if inv.mode == Approval then r == Err(Other) && after == inv
            else if now > inv.expiresAt then r == Err(Expired) && after == inv.(status := PastExpiry)
            else if inv.status !in {Pending, Opened} then r == Err(InvalidStatus(inv.status)) && after == inv
            else if now - at >= 300 * 1_000_000_000 then
              r.Err? && r.error.OpenWindowExpired? && after == seen.(status := PastExpiry)
            else
              && r.Ok? && after == seen
              && (now >= at ==> (300 - r.value) * 1_000_000_000 <= now - at < (301 - r.value) * 1_000_000_000)
  {
  }

  /** Exactly which acceptances succeed, what each refusal says, and what is left. */
  lemma AcceptsExactly(inv: Invitation, ip: Option<string>, user: nat, now: int)
    requires Bounded(inv)
    ensures var (after, r) := AcceptOne(inv, ip, user, now);
            if inv.status == PastExpiry then r == Err(Expired) && after == inv
            else if inv.status !in {Pending, Opened} then r == Err(AlreadyUsed) && after == inv
            else if now > inv.expiresAt then r == Err(Expired) && after == inv.(status := PastExpiry)
            else if inv.mode == Direct && inv.openedAt.Some? && now - inv.openedAt.value >= 301 * 1_000_000_000 then
              r == Err(OpenWindowExpired(0)) && after == inv.(status := PastExpiry)
            else if inv.mode == Direct && inv.openedIp.Some? && ip.Some? && inv.openedIp.value != ip.value then
              r == Err(IpMismatch) && after == inv
            else
              && r == Ok((inv.groupId, inv.role))
              && after == inv.(useCount := inv.useCount + 1, acceptedAt := Some(now), acceptedBy := Some(user),
                          status := if inv.useCount + 1 >= inv.maxUses then Accepted else inv.status)
  {
  }

  /** Whatever happens to an invitation, its terms stay. */
  lemma {:induction false} TermsKept(s: Store, events: seq<Event>, token: string)
    requires WellFormed(s) && Run(s, events) && token in s.index
    ensures var f := Final(s, events);
            && token in f.index && f.index[token] == s.index[token]
            && var inv, was := f.inner[f.index[token]], s.inner[s.index[token]];
            inv.expiresAt == was.expiresAt && inv.mode == was.mode && inv.groupId == was.groupId
            && inv.role == was.role && inv.maxUses == was.maxUses
    decreases |events|
  {
    hide Bounded, Created;
    if events != [] {
      EventKeepsStore(s, events[0]);
      TermsKeptOnce(s, events[0], token);
      TermsKept(After(s, events[0]), events[1..], token);
    }
  }

  lemma TermsKeptOnce(s: Store, e: Event, token: string)
    requires WellFormed(s) && Possible(s, e) && token in s.index
    ensures var f := After(s, e);
            && token in f.index && f.index[token] == s.index[token] && f.index[token] in f.inner
            && var inv, was := f.inner[f.index[token]], s.inner[s.index[token]];
            inv.expiresAt == was.expiresAt && inv.mode == was.mode && inv.groupId == was.groupId
            && inv.role == was.role && inv.maxUses == was.maxUses
  {
    hide Created, NumSeconds;
  }

  /** Over any run nobody redeems an invitation once its time, counted from its making, is over. */
  lemma RedeemedInTime(s: Store, id: nat, token: string, p: Params, made: int, events: seq<Event>, e: Event)
    requires WellFormed(s) && Possible(s, Event.Create(id, token, p, made))
    requires WellFormed(After(s, Event.Create(id, token, p, made)))
    requires Run(After(s, Event.Create(id, token, p, made)), events)
    requires Redeems(Final(After(s, Event.Create(id, token, p, made)), events), e, token)
    ensures e.now <= made + (match p.ttlSecs case Some(secs) => secs case None => 604_800) * 1_000_000_000
  {
    hide Bounded, Run, Final, WellFormed;
    var s' := After(s, Event.Create(id, token, p, made));
    TermsKept(s', events, token);
    var f := Final(s', events);
    Names(f, token);
    AcceptsExactly(f.inner[f.index[token]], e.ip, e.user, e.now);
  }

  /** A direct invitation that was opened can be accepted for less than 301 seconds: whole seconds
      are counted, and the three hundredth is still allowed.  Opening again stops a second earlier. */
  lemma WindowInTicks(inv: Invitation, ip: Option<string>, ua: Option<string>, user: nat, now: int)
    requires Bounded(inv) && Live(inv) && inv.mode == Direct && inv.openedAt.Some?
             && inv.openedAt.value <= now <= inv.expiresAt
    ensures AcceptOne(inv, ip, user, now).1.Ok?
       <==> now - inv.openedAt.value < 301 * TICKS_PER_SECOND && !WrongIp(inv, ip)
    ensures OpenOne(inv, ip, ua, now).1.Ok? <==> now - inv.openedAt.value < 300 * TICKS_PER_SECOND
  {
    WholeSeconds(now - inv.openedAt.value, 301);
    WholeSeconds(now - inv.openedAt.value, 300);
  }

  lemma WholeSeconds(ticks: nat, n: nat)
    ensures NumSeconds(ticks) < n <==> ticks < n * TICKS_PER_SECOND
  {
  }
}
