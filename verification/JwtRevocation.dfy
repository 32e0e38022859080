/** `JwtManager` and its in-memory revocation table (`src/auth/credential/basic.rs`): tokens are
    revoked by token id, by session or for a whole user, and the table forgets by itself once it
    is large and whenever the host cleans it up. */
module JwtRevocation {
  import opened Wrappers

  const REVOCATION_MAX_ENTRIES: nat := 50_000
  const REVOCATION_AUTO_CLEANUP_WINDOW_SECS: int := 86400 * 7
  const MAX_JWT_EXPIRATION_HOURS: int := 87600
  const VERIFY_LEEWAY_SECS: int := 60

  datatype Result<T> = Ok(value: T) | Err(error: JwtError)

  datatype JwtError = NotVerified | TokenRevoked

  /** `genuine`: the signature is one this manager's secret made. */
  datatype Token = Token(userId: string, jti: Option<string>, sessionId: Option<string>, iat: int, exp: int,
                         genuine: bool)

  type Table = map<string, int>

  // ---------- one call, on values ----------

  function Retain(table: Table, cutoff: int): Table {
    map k | k in table && table[k] >= cutoff :: table[k]
  }

  function Recorded(table: Table, key: string, notBefore: int): Table {
    var inserted := table[key := notBefore];
    if |inserted| > REVOCATION_MAX_ENTRIES then Retain(inserted, notBefore - REVOCATION_AUTO_CLEANUP_WINDOW_SECS)
    else inserted
  }

  function SessionKey(sid: string): string { "session:" + sid }

  /** The keys under which a token can be revoked. */
  function Keys(t: Token): set<string> {
    {t.userId} + (if t.jti.Some? then {t.jti.value} else {})
    + (if t.sessionId.Some? then {SessionKey(t.sessionId.value)} else {})
  }

  predicate Verifies(t: Token, now: int) { t.genuine && now <= t.exp + VERIFY_LEEWAY_SECS }

  /** The entry under this key rejects the token. */
  predicate Blocks(table: Table, key: string, t: Token) { key in table && t.iat <= table[key] }

  ghost predicate Hit(table: Table, t: Token) { exists k :: k in Keys(t) && Blocks(table, k, t) }

  /** The answer of a verification that reads the clock and then looks up the user, the token's
      own id and its session, each in the table of that moment. */
  function Answer(t: Token, now: int, forUser: Table, forId: Table, forSession: Table): Result<Token> {
    if !Verifies(t, now) then Err(NotVerified)
    else if
      || Blocks(forUser, t.userId, t)
      || (t.jti.Some? && Blocks(forId, t.jti.value, t))
      || (t.sessionId.Some? && Blocks(forSession, SessionKey(t.sessionId.value), t))
    then Err(TokenRevoked)
    else Ok(t)
  }

  /** Exactly which verifications accept, whatever the three tables hold: the manager's own signature,
      at most a minute past the expiry, and no entry at or after the issue under any of the keys. A
      token that somebody else signed is never accepted. */
  lemma AcceptsExactly(t: Token, now: int, forUser: Table, forId: Table, forSession: Table)
    ensures var r := Answer(t, now, forUser, forId, forSession);
            && (r == Ok(t) <==> && t.genuine && now <= t.exp + 60
                                && !(t.userId in forUser && forUser[t.userId] >= t.iat)
                                && !(t.jti.Some? && t.jti.value in forId && forId[t.jti.value] >= t.iat)
                                && !(t.sessionId.Some? && "session:" + t.sessionId.value in forSession
                                     && forSession["session:" + t.sessionId.value] >= t.iat))
            && (r == Err(NotVerified) <==> !t.genuine || now > t.exp + 60)
            && (r == Ok(t) || r == Err(NotVerified) || r == Err(TokenRevoked))
  {
  }

  /** In one table it is rejected exactly when it no longer verifies or one of its keys is hit. */
  lemma AnswerInOneTable(t: Token, now: int, table: Table)
    ensures Answer(t, now, table, table, table).Ok? <==> Verifies(t, now) && !Hit(table, t)
  {
    assert t.userId in Keys(t);
    assert t.jti.Some? ==> t.jti.value in Keys(t);
    assert t.sessionId.Some? ==> SessionKey(t.sessionId.value) in Keys(t);
  }

  // ---------- the objects ----------

  class MemoryRevocationBackend {
    var table: Table

    constructor ()
      ensures table == map[]
    {
      table := map[];
    }

    method Revoke(key: string, notBefore: int)
      modifies this
      ensures table == Recorded(old(table), key, notBefore)
      ensures key in table && table[key] == notBefore
      ensures forall k :: k in table && k != key ==> k in old(table) && table[k] == old(table)[k]
      ensures if |old(table)[key := notBefore]| <= 50_000 then old(table).Keys <= table.Keys
              else forall k :: k in table <==> k == key || (k in old(table) && old(table)[k] >= notBefore - 604_800)
    {
      table := table[key := notBefore];
      if |table| > REVOCATION_MAX_ENTRIES {
        var cutoff := notBefore - REVOCATION_AUTO_CLEANUP_WINDOW_SECS;
        table := Retain(table, cutoff);
      }
    }

    method GetNotBefore(key: string) returns (r: Option<int>)
      ensures r == if key in table then Some(table[key]) else None
    {
      r := if key in table then Some(table[key]) else None;
    }

    method CleanupBefore(cutoff: int)
      modifies this
      ensures table == Retain(old(table), cutoff)
      ensures forall k :: k in table <==> k in old(table) && old(table)[k] >= cutoff
      ensures forall k :: k in table ==> table[k] == old(table)[k]
    {
      table := Retain(table, cutoff);
    }
  }

  function Clamped(hours: int): int {
    if hours < 1 then 1 else if hours > MAX_JWT_EXPIRATION_HOURS then MAX_JWT_EXPIRATION_HOURS else hours
  }

  class JwtManager {
    const expirationHours: int
    const backend: MemoryRevocationBackend

    constructor (expirationHours: int, backend: MemoryRevocationBackend)
      ensures this.backend == backend
      ensures this.expirationHours == Clamped(expirationHours)
      ensures this.expirationHours
           == if expirationHours <= 0 then 1 else if expirationHours <= 87_600 then expirationHours else 87_600
    {
      this.backend := backend;
      this.expirationHours := Clamped(expirationHours);
    }

    /** The token lives for the configured hours and verifies a minute longer; it can be revoked by
        its user, its own id and its session, and by nothing else. */
    method Issue(userId: string, sessionId: Option<string>, now: int, jti: string) returns (t: Token)
      ensures t.userId == userId && t.jti == Some(jti) && t.sessionId == sessionId && t.genuine
      ensures t.iat == now && t.exp == now + expirationHours * 3600 == t.iat + Lifetime()
      ensures forall later :: Verifies(t, later) <==> later <= now + Lifetime() + VERIFY_LEEWAY_SECS
      ensures Keys(t) == {userId, jti} + if sessionId.Some? then {SessionKey(sessionId.value)} else {}
      ensures forall e :: Revokes(e, t)
                          <==> && now <= e.now
                               && (|| (e.RevokedToken? && e.jti == jti)
                                   || (e.RevokedUser? && e.userId == userId)
                                   || (e.RevokedSession? && sessionId == Some(e.sid)))
    {
      t := Token(userId, Some(jti), sessionId, now, now + expirationHours * 3600, true);
    }

    function Lifetime(): int { expirationHours * 3600 }

    /** `forUser`, `forId` and `forSession` are what the table holds by the time of each lookup. */
    method VerifyWithRevocation(t: Token, now: int, forUser: Table, forId: Table, forSession: Table)
      returns (r: Result<Token>)
      modifies backend
      ensures r == Answer(t, now, forUser, forId, forSession)
      ensures backend.table in {old(backend.table), forUser, forId, forSession}
    {
      if !Verifies(t, now) {
        return Err(NotVerified);
      }
      backend.table := forUser;
      var notBefore := backend.GetNotBefore(t.userId);
      if notBefore.Some? && t.iat <= notBefore.value {
        return Err(TokenRevoked);
      }
      if t.jti.Some? {
        backend.table := forId;
        notBefore := backend.GetNotBefore(t.jti.value);
        if notBefore.Some? && t.iat <= notBefore.value {
          return Err(TokenRevoked);
        }
      }
      if t.sessionId.Some? {
        backend.table := forSession;
        notBefore := backend.GetNotBefore(SessionKey(t.sessionId.value));
        if notBefore.Some? && t.iat <= notBefore.value {
          return Err(TokenRevoked);
        }
      }
      return Ok(t);
    }

    method RevokeToken(jti: string, now: int, ghost held: int)
      modifies backend
      ensures backend.table == After(old(backend.table), RevokedToken(jti, now, held))
    {
      backend.Revoke(jti, now);
    }

    /** Every token of the user issued up to a second after the reading is hit. */
    method RevokeAllForUser(userId: string, now: int, ghost held: int)
      modifies backend
      ensures backend.table == After(old(backend.table), RevokedUser(userId, now, held))
      ensures forall t: Token :: t.userId == userId && t.iat <= now + 1 ==> Hit(backend.table, t)
    {
      hide Recorded, Hit;
      backend.Revoke(userId, now + 1);
      RecordedIsHeld(old(backend.table), userId, now + 1);
      forall t: Token | t.userId == userId && t.iat <= now + 1 ensures Hit(backend.table, t) {
        HitBy(backend.table, t, userId);
      }
    }

    method RevokeSession(sid: string, now: int, ghost held: int)
      modifies backend
      ensures backend.table == After(old(backend.table), RevokedSession(sid, now, held))
    {
      backend.Revoke(SessionKey(sid), now);
    }

    method CleanupRevocation(maxTokenLifetimeSecs: int, now: int, ghost held: int)
      modifies backend
      ensures backend.table == After(old(backend.table), CleanedUp(maxTokenLifetimeSecs, now, held))
    {
      backend.CleanupBefore(now - maxTokenLifetimeSecs);
    }
  }

  // ---------- runs ----------

  /** One call each: `now` is the clock as the call read it, `held` the moment it holds the lock of
      the table. The reading comes first, so calls can write in another order than they read. */
  datatype Event =
    | RevokedToken(jti: string, now: int, held: int)
    | RevokedUser(userId: string, now: int, held: int)
    | RevokedSession(sid: string, now: int, held: int)
    | CleanedUp(maxTokenLifetimeSecs: int, now: int, held: int)

  function After(table: Table, e: Event): Table {
    match e
    case RevokedToken(jti, now, _) => Recorded(table, jti, now)
    case RevokedUser(userId, now, _) => Recorded(table, userId, now + 1)
    case RevokedSession(sid, now, _) => Recorded(table, SessionKey(sid), now)
    case CleanedUp(max, now, _) => Retain(table, now - max)
  }

  function AfterAll(table: Table, events: seq<Event>): Table
    decreases |events|
  {
    if events == [] then table else AfterAll(After(table, events[0]), events[1..])
  }

  /** The key a revocation writes. */
  function KeyOf(e: Event): string
    requires !e.CleanedUp?
  {
    match e
    case RevokedToken(jti, _, _) => jti
    case RevokedUser(userId, _, _) => userId
    case RevokedSession(sid, _, _) => SessionKey(sid)
  }

  /** The moment it writes under that key. */
  function NotBefore(e: Event): int
    requires !e.CleanedUp?
  {
    if e.RevokedUser? then e.now + 1 else e.now
  }

  /** The events as the lock lets them in, each holding it at most `wait` seconds after reading
      the clock. */
  ghost predicate InLockOrder(events: seq<Event>, wait: nat) {
    && (forall i :: 0 <= i < |events| ==> events[i].now <= events[i].held <= events[i].now + wait)
    && (forall i, j :: 0 <= i < j < |events| ==> events[i].held <= events[j].held)
  }

  predicate Overwrites(later: Event, earlier: Event) {
    !later.CleanedUp? && !earlier.CleanedUp? && KeyOf(later) == KeyOf(earlier)
  }

  /** The discipline of the caller who revokes under one key one call at a time: what is written
      under a key never goes back. */
  ghost predicate PerKeyOrder(events: seq<Event>) {
    forall i, j :: 0 <= i < j < |events| && Overwrites(events[j], events[i])
                   ==> NotBefore(events[i]) <= NotBefore(events[j])
  }

  ghost predicate CleanupsKeep(events: seq<Event>, atLeast: int) {
    forall i :: 0 <= i < |events| && events[i].CleanedUp? ==> events[i].maxTokenLifetimeSecs >= atLeast
  }

  /** The event revokes this token, which had been issued by then. */
  predicate Revokes(e: Event, t: Token) {
    && t.iat <= e.now
    && match e
       case RevokedToken(jti, _, _) => t.jti == Some(jti)
       case RevokedUser(userId, _, _) => t.userId == userId
       case RevokedSession(sid, _, _) => t.sessionId == Some(sid)
       case CleanedUp(_, _, _) => false
  }

  /** Rejected under this key, or too old for any verification that takes at most `look` seconds. */
  predicate Dead(table: Table, key: string, t: Token, look: nat, now: int) {
    t.iat <= now && (Blocks(table, key, t) || now > t.exp + VERIFY_LEEWAY_SECS + look)
  }

  lemma RecordedIsHeld(table: Table, key: string, notBefore: int)
    ensures key in Recorded(table, key, notBefore) && Recorded(table, key, notBefore)[key] == notBefore
  {
  }

  lemma HitBy(table: Table, t: Token, key: string)
    requires key in Keys(t) && Blocks(table, key, t)
    ensures Hit(table, t)
  {
  }

  lemma RevocationKills(table: Table, e: Event, t: Token)
    requires Revokes(e, t)
    ensures KeyOf(e) in Keys(t) && Blocks(After(table, e), KeyOf(e), t) && Hit(After(table, e), t)
  {
    hide Recorded, Hit;
    RecordedIsHeld(table, KeyOf(e), NotBefore(e));
    HitBy(After(table, e), t, KeyOf(e));
  }

  /** The event does not take the key back to a moment before the token's issue. */
  predicate KeepsKey(table: Table, e: Event, key: string, t: Token) {
    !e.CleanedUp? && KeyOf(e) == key && key in table ==> NotBefore(e) >= table[key] || NotBefore(e) >= t.iat
  }

  lemma DeadStaysDead(table: Table, e: Event, key: string, t: Token, lifetime: int, look: nat, before: int)
    requires Dead(table, key, t, look, before) && before <= e.held && e.now <= e.held
    requires KeepsKey(table, e, key, t)
    requires t.exp == t.iat + lifetime
    requires lifetime + look + VERIFY_LEEWAY_SECS < REVOCATION_AUTO_CLEANUP_WINDOW_SECS
    requires e.CleanedUp? ==> e.maxTokenLifetimeSecs >= lifetime + look + VERIFY_LEEWAY_SECS
    ensures Dead(After(table, e), key, t, look, e.held)
  {
  }

  /** Whatever the events write later, they write no earlier moment over one in the table. */
  ghost predicate Above(table: Table, events: seq<Event>) {
    forall j :: 0 <= j < |events| && !events[j].CleanedUp? && KeyOf(events[j]) in table
                ==> table[KeyOf(events[j])] <= NotBefore(events[j])
  }

  lemma AboveStep(table: Table, events: seq<Event>)
    requires events != [] && PerKeyOrder(events) && Above(table, events)
    ensures PerKeyOrder(events[1..]) && Above(After(table, events[0]), events[1..])
  {
    forall j | 0 <= j < |events[1..]| && !events[1..][j].CleanedUp?
               && KeyOf(events[1..][j]) in After(table, events[0])
      ensures After(table, events[0])[KeyOf(events[1..][j])] <= NotBefore(events[1..][j])
    {
      assert events[1..][j] == events[j + 1];
      if Overwrites(events[j + 1], events[0]) {
        assert NotBefore(events[0]) <= NotBefore(events[j + 1]);
      }
    }
  }

  lemma {:induction false} AboveAlong(table: Table, events: seq<Event>, i: nat)
    requires i <= |events| && PerKeyOrder(events) && Above(table, events)
    ensures Above(AfterAll(table, events[..i]), events[i..])
    ensures PerKeyOrder(events[i..])
    decreases i
  {
    if i == 0 {
      assert events[0..] == events;
    } else {
      AboveStep(table, events);
      AboveAlong(After(table, events[0]), events[1..], i - 1);
      assert events[..i][0] == events[0] && events[..i][1..] == events[1..][..i - 1];
      assert events[i..] == events[1..][i - 1..];
    }
  }

  /** Every write is late enough to reject the token. */
  ghost predicate AllLate(events: seq<Event>, t: Token) {
    forall j :: 0 <= j < |events| && !events[j].CleanedUp? ==> t.iat <= NotBefore(events[j])
  }

  ghost predicate NeverBack(table: Table, events: seq<Event>, t: Token) {
    || AllLate(events, t)
    || (PerKeyOrder(events) && Above(table, events))
  }

  lemma {:induction false} DeadOverRun(table: Table, events: seq<Event>, key: string, t: Token, lifetime: int,
                                       wait: nat, look: nat, before: int)
    requires Dead(table, key, t, look, before) && t.exp == t.iat + lifetime
    requires InLockOrder(events, wait) && (events != [] ==> before <= events[0].held)
    requires NeverBack(table, events, t)
    requires lifetime + look + VERIFY_LEEWAY_SECS < REVOCATION_AUTO_CLEANUP_WINDOW_SECS
    requires CleanupsKeep(events, lifetime + look + VERIFY_LEEWAY_SECS)
    ensures Dead(AfterAll(table, events), key, t, look, if events == [] then before else events[|events| - 1].held)
    decreases |events|
  {
    hide After, Dead;
    if events != [] {
      DeadStaysDead(table, events[0], key, t, lifetime, look, before);
      if PerKeyOrder(events) && Above(table, events) {
        AboveStep(table, events);
      }
      DeadOverRun(After(table, events[0]), events[1..], key, t, lifetime, wait, look, events[0].held);
    }
  }

  /** A lookup at time `at`, when the first `seen` events had held the lock. */
  datatype Glance = Glance(seen: nat, at: int)

  /** A verification: its reading of the clock, and its lookups of user, token and session. */
  datatype Verification = Verification(readAt: int, user: Glance, id: Glance, session: Glance)

  predicate Timely(events: seq<Event>, g: Glance) {
    && g.seen <= |events|
    && (g.seen > 0 ==> events[g.seen - 1].held <= g.at)
    && (g.seen < |events| ==> g.at <= events[g.seen].held)
  }

  /** The lookups follow the reading and one another, the last at most `look` seconds after it. */
  predicate Takes(events: seq<Event>, v: Verification, look: nat) {
    && v.readAt <= v.user.at <= v.id.at <= v.session.at <= v.readAt + look
    && v.user.seen <= v.id.seen <= v.session.seen
    && Timely(events, v.user) && Timely(events, v.id) && Timely(events, v.session)
  }

  ghost predicate Accepts(events: seq<Event>, t: Token, v: Verification)
    requires v.user.seen <= |events| && v.id.seen <= |events| && v.session.seen <= |events|
  {
    Answer(t, v.readAt, AfterAll(map[], events[..v.user.seen]), AfterAll(map[], events[..v.id.seen]),
           AfterAll(map[], events[..v.session.seen])).Ok?
  }

  /** A verification that takes at most `look` seconds accepts the token, though event `i` had
      revoked it before the first lookup. */
  ghost predicate Resurrected(events: seq<Event>, t: Token, i: nat, v: Verification, look: nat) {
    && i < v.user.seen
    && Takes(events, v, look)
    && Revokes(events[i], t)
    && Accepts(events, t, v)
  }

  /** Calls wait at most `wait` seconds for the lock, cleanups keep entries for at least
      `minCleanup` seconds, and callers keep the order of each key if `serialised`. */
  ghost predicate Allowed(events: seq<Event>, minCleanup: int, wait: nat, serialised: bool) {
    && InLockOrder(events, wait)
    && CleanupsKeep(events, minCleanup)
    && (serialised ==> PerKeyOrder(events))
  }

  /** Tokens of this lifetime, once revoked, are never accepted again in any allowed run. */
  ghost predicate RevocationIsForever(lifetime: int, minCleanup: int, wait: nat, look: nat, serialised: bool) {
    forall events: seq<Event>, t: Token, i: nat, v: Verification ::
      Allowed(events, minCleanup, wait, serialised) && t.exp == t.iat + lifetime ==> !Resurrected(events, t, i, v, look)
  }

  lemma AfterAllSplit(table: Table, events: seq<Event>, i: nat)
    requires i <= |events|
    ensures AfterAll(table, events) == AfterAll(AfterAll(table, events[..i]), events[i..])
    decreases |events|
  {
    if i == 0 {
      assert events[..0] == [] && events[0..] == events;
    } else {
      AfterAllSplit(After(table, events[0]), events[1..], i - 1);
      assert events[..i][0] == events[0] && events[..i][1..] == events[1..][..i - 1]
             && events[i..] == events[1..][i - 1..];
    }
  }

  lemma AfterAllThrough(table: Table, events: seq<Event>, i: nat)
    requires i < |events|
    ensures AfterAll(table, events) == AfterAll(After(AfterAll(table, events[..i]), events[i]), events[i + 1..])
  {
    AfterAllSplit(table, events, i);
    assert events[i..][0] == events[i] && events[i..][1..] == events[i + 1..];
  }

  /** After any allowed run, the token that event `i` revoked is rejected under the same key, or too
      old. */
  lemma DeadAtEnd(lifetime: int, wait: nat, look: nat, serialised: bool, events: seq<Event>, t: Token, i: nat)
    requires lifetime + look + VERIFY_LEEWAY_SECS < REVOCATION_AUTO_CLEANUP_WINDOW_SECS
    requires serialised || wait == 0
    requires Allowed(events, lifetime + look + VERIFY_LEEWAY_SECS, wait, serialised)
    requires t.exp == t.iat + lifetime && i < |events| && Revokes(events[i], t)
    ensures !events[i].CleanedUp?
    ensures Dead(AfterAll(map[], events), KeyOf(events[i]), t, look, events[|events| - 1].held)
  {
    hide AfterAll, After, Revokes, Hit, KeyOf, NotBefore, Blocks, Above, PerKeyOrder, AllLate, Overwrites;
    var before := AfterAll(map[], events[..i]);
    RevokesLater(events[i], t);
    AfterAllThrough(map[], events, i);
    RevocationKills(before, events[i], t);
    if serialised {
      AboveAlong(map[], events, i);
      AboveStep(before, events[i..]);
      assert events[i..][0] == events[i] && events[i..][1..] == events[i + 1..];
    } else {
      LateEnough(events, i, t, wait);
    }
    DeadOverRun(After(before, events[i]), events[i + 1..], KeyOf(events[i]), t, lifetime, wait, look, events[i].held);
  }

  /** When no call waits, everything after the revocation is written late enough. */
  lemma LateEnough(events: seq<Event>, i: nat, t: Token, wait: nat)
    requires InLockOrder(events, wait) && wait == 0 && i < |events| && t.iat <= events[i].now
    ensures AllLate(events[i + 1..], t)
  {
  }

  lemma AllowedPrefix(events: seq<Event>, minCleanup: int, wait: nat, serialised: bool, n: nat)
    requires Allowed(events, minCleanup, wait, serialised) && n <= |events|
    ensures Allowed(events[..n], minCleanup, wait, serialised)
  {
    hide KeyOf, NotBefore, Overwrites;
  }

  /** The lookup under the key of event `i` finds the entry. */
  lemma StillRejected(lifetime: int, wait: nat, look: nat, serialised: bool, events: seq<Event>, t: Token, i: nat,
                      g: Glance, readAt: int)
    requires lifetime + look + VERIFY_LEEWAY_SECS < REVOCATION_AUTO_CLEANUP_WINDOW_SECS
    requires serialised || wait == 0
    requires Allowed(events, lifetime + look + VERIFY_LEEWAY_SECS, wait, serialised)
    requires t.exp == t.iat + lifetime && i < g.seen && Timely(events, g) && Revokes(events[i], t)
    requires g.at <= readAt + look && Verifies(t, readAt)
    ensures !events[i].CleanedUp? && Blocks(AfterAll(map[], events[..g.seen]), KeyOf(events[i]), t)
  {
    hide AfterAll, Revokes, KeyOf, Allowed, Blocks;
    AllowedPrefix(events, lifetime + look + VERIFY_LEEWAY_SECS, wait, serialised, g.seen);
    DeadAtEnd(lifetime, wait, look, serialised, events[..g.seen], t, i);
  }

  lemma RevokesLater(e: Event, t: Token)
    requires Revokes(e, t)
    ensures t.iat <= e.now && !e.CleanedUp?
  {
  }

  lemma NotResurrected(lifetime: int, wait: nat, look: nat, serialised: bool, events: seq<Event>, t: Token, i: nat,
                       v: Verification)
    requires lifetime + look + VERIFY_LEEWAY_SECS < REVOCATION_AUTO_CLEANUP_WINDOW_SECS
    requires serialised || wait == 0
    requires Allowed(events, lifetime + look + VERIFY_LEEWAY_SECS, wait, serialised)
    requires t.exp == t.iat + lifetime
    ensures !Resurrected(events, t, i, v, look)
  {
    hide AfterAll, Allowed, Verifies, Blocks;
    if i < v.user.seen && Takes(events, v, look) && Revokes(events[i], t) && Verifies(t, v.readAt) {
      StillRejected(lifetime, wait, look, serialised, events, t, i, v.user, v.readAt);
      StillRejected(lifetime, wait, look, serialised, events, t, i, v.id, v.readAt);
      StillRejected(lifetime, wait, look, serialised, events, t, i, v.session, v.readAt);
    }
  }

  // ---------- where it fails ----------

  function Repeat(n: nat): string { if n == 0 then "u" else Repeat(n - 1) + "u" }

  lemma {:induction false} RepeatLength(n: nat)
    ensures |Repeat(n)| == n + 1 && Repeat(n)[0] == 'u'
  {
    if n > 0 {
      RepeatLength(n - 1);
    }
  }

  /** The table after one token was revoked at 0 and `n` users a window later. */
  function Crowded(n: nat): (table: Table)
    ensures "j" in table && table["j"] == 0
  {
    if n == 0 then map["j" := 0]
    else
      RepeatLength(n - 1);
      Crowded(n - 1)[Repeat(n - 1) := REVOCATION_AUTO_CLEANUP_WINDOW_SECS + 1]
  }

  lemma {:induction false} CrowdedKeys(n: nat)
    ensures |Crowded(n)| == n + 1
    ensures forall m: nat :: m >= n ==> Repeat(m) !in Crowded(n)
  {
    if n > 0 {
      CrowdedKeys(n - 1);
      forall m: nat | m >= n ensures Repeat(m) !in Crowded(n) {
        RepeatLength(m);
        RepeatLength(n - 1);
      }
    } else {
      forall m: nat ensures Repeat(m) != "j" {
        RepeatLength(m);
      }
    }
  }

  function CrowdEvent(n: nat): Event {
    RevokedUser(Repeat(n), REVOCATION_AUTO_CLEANUP_WINDOW_SECS, REVOCATION_AUTO_CLEANUP_WINDOW_SECS)
  }

  function CrowdEvents(n: nat): seq<Event> {
    if n == 0 then [RevokedToken("j", 0, 0)]
    else CrowdEvents(n - 1) + [CrowdEvent(n - 1)]
  }

  lemma {:induction false} CrowdEventsAllowed(n: nat)
    ensures |CrowdEvents(n)| == n + 1 && CrowdEvents(n)[0] == RevokedToken("j", 0, 0)
    ensures forall i :: 1 <= i <= n ==> CrowdEvents(n)[i] == CrowdEvent(i - 1)
  {
    if n > 0 {
      CrowdEventsAllowed(n - 1);
    }
  }

  lemma {:induction false} CrowdFills(n: nat)
    requires n < REVOCATION_MAX_ENTRIES
    ensures AfterAll(map[], CrowdEvents(n)) == Crowded(n)
  {
    hide AfterAll, Retain, Repeat;
    if n > 0 {
      CrowdFills(n - 1);
      CrowdedKeys(n);
      OneMore(map[], CrowdEvents(n - 1), CrowdEvent(n - 1));
    } else {
      OnlyOne();
    }
  }

  lemma OnlyOne()
    ensures AfterAll(map[], [RevokedToken("j", 0, 0)]) == map["j" := 0]
  {
    var empty: Table := map[];
    assert |empty["j" := 0]| == 1;
    OneMore(empty, [], RevokedToken("j", 0, 0));
    assert [] + [RevokedToken("j", 0, 0)] == [RevokedToken("j", 0, 0)];
  }

  lemma OneMore(table: Table, events: seq<Event>, e: Event)
    ensures AfterAll(table, events + [e]) == After(AfterAll(table, events), e)
  {
    AfterAllSplit(table, events + [e], |events|);
    assert (events + [e])[..|events|] == events && (events + [e])[|events|..] == [e];
    assert [e][1..] == [];
  }

  lemma CrowdPruned(n: nat)
    requires n == REVOCATION_MAX_ENTRIES
    ensures AfterAll(map[], CrowdEvents(n)) == Retain(Crowded(n), 1)
  {
    hide Retain, Crowded;
    CrowdFills(n - 1);
    OneMore(map[], CrowdEvents(n - 1), CrowdEvent(n - 1));
    CrowdedKeys(n);
    CrowdedStep(n);
  }

  lemma CrowdedStep(n: nat)
    requires n > 0
    ensures Crowded(n) == Crowded(n - 1)[Repeat(n - 1) := REVOCATION_AUTO_CLEANUP_WINDOW_SECS + 1]
  {
  }

  /** A verification whose lookups all come at `at`, after all `n` events, and whose reading is up
      to `look` seconds older. */
  function AllAt(n: nat, at: nat, look: nat): Verification {
    var g := Glance(n, at);
    Verification(if at >= look then at - look else 0, g, g, g)
  }

  lemma AcceptsAfterAll(events: seq<Event>, t: Token, at: nat, look: nat)
    requires Verifies(t, AllAt(|events|, at, look).readAt) && !Hit(AfterAll(map[], events), t)
    ensures Accepts(events, t, AllAt(|events|, at, look))
  {
    hide AfterAll, Hit;
    assert events[..|events|] == events;
    AnswerInOneTable(t, AllAt(|events|, at, look).readAt, AfterAll(map[], events));
  }

  /** Long-lived tokens outlive their entry when enough other revocations crowd the table. */
  lemma CrowdedOut(lifetime: nat, look: nat)
    requires lifetime + look + VERIFY_LEEWAY_SECS >= REVOCATION_AUTO_CLEANUP_WINDOW_SECS
    ensures Resurrected(CrowdEvents(REVOCATION_MAX_ENTRIES), Token("", Some("j"), None, 0, lifetime, true), 0,
                        AllAt(REVOCATION_MAX_ENTRIES + 1, REVOCATION_AUTO_CLEANUP_WINDOW_SECS, look), look)
  {
    hide AfterAll, Hit, Accepts;
    var n := REVOCATION_MAX_ENTRIES;
    CrowdEventsAllowed(n);
    CrowdHitsNot(lifetime);
    AcceptsAfterAll(CrowdEvents(n), Token("", Some("j"), None, 0, lifetime, true), REVOCATION_AUTO_CLEANUP_WINDOW_SECS,
                    look);
  }

  lemma CrowdHitsNot(lifetime: nat)
    ensures !Hit(AfterAll(map[], CrowdEvents(REVOCATION_MAX_ENTRIES)), Token("", Some("j"), None, 0, lifetime, true))
  {
    hide AfterAll;
    CrowdPruned(REVOCATION_MAX_ENTRIES);
    CrowdedWithout(REVOCATION_MAX_ENTRIES);
    assert Keys(Token("", Some("j"), None, 0, lifetime, true)) == {"", "j"};
  }

  lemma {:induction false} CrowdedWithout(n: nat)
    ensures "" !in Crowded(n)
  {
    if n > 0 {
      RepeatLength(n - 1);
      CrowdedWithout(n - 1);
    }
  }

  /** A cleanup that keeps entries for less than the lifetime, the leeway and the time a
      verification takes lets a revoked token back in. */
  lemma CleanedOut(lifetime: nat, look: nat, minCleanup: nat)
    requires minCleanup < lifetime + look + VERIFY_LEEWAY_SECS
    ensures Resurrected([RevokedToken("j", 0, 0), CleanedUp(minCleanup, minCleanup + 1, minCleanup + 1)],
                        Token("", Some("j"), None, 0, lifetime, true), 0, AllAt(2, minCleanup + 1, look), look)
  {
    hide Accepts;
    var empty: Table := map[];
    var cleanup := CleanedUp(minCleanup, minCleanup + 1, minCleanup + 1);
    var events := [RevokedToken("j", 0, 0), cleanup];
    OnlyOne();
    OneMore(empty, [RevokedToken("j", 0, 0)], cleanup);
    assert [RevokedToken("j", 0, 0)] + [cleanup] == events;
    assert AfterAll(empty, events) == map[];
    AcceptsAfterAll(events, Token("", Some("j"), None, 0, lifetime, true), minCleanup + 1, look);
  }

  /** A call that read the clock a second earlier holds the lock second, and its older moment
      replaces the one that revoked the token. No lifetime is too short for this. */
  lemma OverwrittenByOlder(lifetime: nat, look: nat)
    ensures Resurrected([RevokedSession("s", 1, 1), RevokedSession("s", 0, 1)],
                        Token("u", Some("j"), Some("s"), 1, 1 + lifetime, true), 0, AllAt(2, 1, 0), look)
  {
    hide Accepts;
    var empty: Table := map[];
    var newer, older := RevokedSession("s", 1, 1), RevokedSession("s", 0, 1);
    var t := Token("u", Some("j"), Some("s"), 1, 1 + lifetime, true);
    OneMore(empty, [], newer);
    OneMore(empty, [newer], older);
    assert [] + [newer] == [newer] && [newer] + [older] == [newer, older];
    assert empty[SessionKey("s") := 1][SessionKey("s") := 0] == map[SessionKey("s") := 0];
    assert |empty[SessionKey("s") := 1]| == 1;
    assert |map[SessionKey("s") := 0]| == 1;
    assert Keys(t) == {"u", "j", SessionKey("s")};
    AcceptsAfterAll([newer, older], t, 1, 0);
  }

  /** Revocation is for ever exactly when the lifetime, the leeway and the time that a verification
      takes are together shorter than the automatic window, every explicit cleanup keeps at least
      as much, and no revocation under a key can overtake a later one: the callers see to it, or
      none waits. */
  lemma RevocationIsForeverExactly(lifetime: nat, minCleanup: nat, wait: nat, look: nat, serialised: bool)
    ensures RevocationIsForever(lifetime, minCleanup, wait, look, serialised) <==>
            && lifetime + look + VERIFY_LEEWAY_SECS < REVOCATION_AUTO_CLEANUP_WINDOW_SECS
            && minCleanup >= lifetime + look + VERIFY_LEEWAY_SECS
            && (serialised || wait == 0)
  {
    hide Resurrected;
    if lifetime + look + VERIFY_LEEWAY_SECS >= REVOCATION_AUTO_CLEANUP_WINDOW_SECS {
      CrowdedOut(lifetime, look);
      CrowdEventsAllowed(REVOCATION_MAX_ENTRIES);
    } else if minCleanup < lifetime + look + VERIFY_LEEWAY_SECS {
      CleanedOut(lifetime, look, minCleanup);
    } else if !serialised && wait > 0 {
      OverwrittenByOlder(lifetime, look);
      assert Allowed([RevokedSession("s", 1, 1), RevokedSession("s", 0, 1)], minCleanup, wait, serialised);
    } else {
      forall events: seq<Event>, t: Token, i: nat, v: Verification |
        Allowed(events, minCleanup, wait, serialised) && t.exp == t.iat + lifetime
        ensures !Resurrected(events, t, i, v, look)
      {
        NotResurrected(lifetime, wait, look, serialised, events, t, i, v);
      }
    }
  }

  /** The constructor warns when the lifetime exceeds the automatic window. */
  predicate Warns(expirationHours: int) { expirationHours * 3600 > REVOCATION_AUTO_CLEANUP_WINDOW_SECS }

  /** In whole hours the safe lifetimes end at 167, but the warning only starts at 169: a
      manager for exactly seven days is unsafe and is not warned about. */
  lemma WarningMissesSevenDays(expirationHours: nat, minCleanup: nat, wait: nat, look: nat, serialised: bool)
    requires expirationHours >= 1 && look < 3600 - VERIFY_LEEWAY_SECS
    requires minCleanup >= expirationHours * 3600 + look + VERIFY_LEEWAY_SECS
    requires serialised || wait == 0
    ensures RevocationIsForever(expirationHours * 3600, minCleanup, wait, look, serialised) <==> expirationHours <= 167
    ensures Warns(expirationHours) <==> expirationHours >= 169
  {
    RevocationIsForeverExactly(expirationHours * 3600, minCleanup, wait, look, serialised);
  }
}
