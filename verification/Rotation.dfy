/** Refresh-token rotation: `issue_pair`, `verify_refresh_claims` and `refresh_rotating` of
    `packages/session/src/manager.rs` over the revocation store.

    Signing is ideal: a token carries the key that signed it, and whoever does not hold a key
    cannot make a token of it.  A rotation reads the clock three times: to verify the presented
    token, for the store, and to stamp the new pair.  The second reading is taken before the lock
    of the store, so other calls may get the lock in between. */
module Rotation {
  import opened Revocation
  import opened Wrappers

  datatype Result<T> = Ok(value: T) | Err(error: SessionError)

  datatype SessionError = InvalidToken | Expired | Revoked | SigningUnavailable

  datatype TokenType = Access | Refresh

  /** The `sub` claim: a user id, or text that does not parse as one. */
  datatype Subject = UserId(id: nat) | Opaque(text: string)

  datatype Claims = Claims(
    sub: Subject, username: string, tokenType: TokenType, iat: int, exp: int,
    iss: string, aud: Option<string>, sid: Option<string>, roles: seq<string>)

  type Key = nat

  datatype Token = Token(claims: Claims, signedWith: Key)

  datatype TokenPair = TokenPair(access: Token, refresh: Token)

  datatype Config = Config(
    issuer: string, audience: Option<string>, accessTtl: nat, refreshTtl: nat,
    signing: Option<Key>, verifying: seq<Key>)

  // ---------- one call, on values ----------

  function Verify(cfg: Config, token: Token, now: int): Result<Claims> {
    var c := token.claims;
    if c.iss != cfg.issuer then Err(InvalidToken)
    else if cfg.audience.Some? && c.aud != cfg.audience then Err(InvalidToken)
    else if now > c.exp + VERIFY_LEEWAY_SECS then Err(Expired)
    else if token.signedWith in cfg.verifying then Ok(c)
    else Err(InvalidToken)
  }

  /** A verified refresh token with a user id and a session id: the user and the session. */
  function VerifiedSession(cfg: Config, token: Token, now: int): Result<(nat, string)> {
    match Verify(cfg, token, now)
    case Err(e) => Err(e)
    case Ok(c) =>
      if c.tokenType != Refresh then Err(InvalidToken)
      else if !c.sub.UserId? then Err(InvalidToken)
      else if c.sid.None? then Err(InvalidToken)
      else Ok((c.sub.id, c.sid.value))
  }

  function ClaimsFor(cfg: Config, user: nat, username: string, roles: seq<string>, kind: TokenType, now: int,
                     sid: string): Claims
  {
    Claims(UserId(user), username, kind, now, now + (if kind == Access then cfg.accessTtl else cfg.refreshTtl),
           cfg.issuer, cfg.audience, Some(sid), roles)
  }

  function IssuedPair(cfg: Config, user: nat, username: string, roles: seq<string>, now: int,
                      sid: string): Result<TokenPair>
  {
    if cfg.signing.None? then Err(SigningUnavailable)
    else Ok(TokenPair(Token(ClaimsFor(cfg, user, username, roles, Access, now, sid), cfg.signing.value),
                      Token(ClaimsFor(cfg, user, username, roles, Refresh, now, sid), cfg.signing.value)))
  }

  /** The answer of a rotation, given the verdict `first` of the store. */
  function Rotated(cfg: Config, token: Token, verifiedAt: int, issuedAt: int, first: bool,
                   newSid: string): Result<TokenPair>
  {
    match VerifiedSession(cfg, token, verifiedAt)
    case Err(e) => Err(e)
    case Ok((user, sid)) =>
      if !first then Err(Revoked)
      else IssuedPair(cfg, user, token.claims.username, token.claims.roles, issuedAt, newSid)
  }

  /** The claims of both tokens of a pair, one by one. */
  predicate IsPair(cfg: Config, p: TokenPair, user: nat, username: string, roles: seq<string>, now: int,
                   sid: string)
  {
    && p.access.claims.tokenType == Access && p.access.claims.exp == now + cfg.accessTtl
    && p.refresh.claims.tokenType == Refresh && p.refresh.claims.exp == now + cfg.refreshTtl
    && forall t :: t in {p.access, p.refresh}
                   ==> && cfg.signing == Some(t.signedWith)
                       && t.claims.sub == UserId(user) && t.claims.username == username && t.claims.roles == roles
                       && t.claims.iss == cfg.issuer && t.claims.aud == cfg.audience
                       && t.claims.sid == Some(sid) && t.claims.iat == now
  }

  class TokenManager {
    const cfg: Config

    constructor (cfg: Config)
      ensures this.cfg == cfg
    {
      this.cfg := cfg;
    }

    method VerifyToken(token: Token, now: int) returns (r: Result<Claims>)
      ensures r == Verify(cfg, token, now)
      ensures r.Ok? <==> && token.claims.iss == cfg.issuer
                         && (cfg.audience.Some? ==> token.claims.aud == cfg.audience)
                         && now <= token.claims.exp + 60
                         && token.signedWith in cfg.verifying
      ensures r == Err(Expired) <==> && token.claims.iss == cfg.issuer
                                     && (cfg.audience.Some? ==> token.claims.aud == cfg.audience)
                                     && now > token.claims.exp + 60
      ensures r == Ok(token.claims) || r == Err(Expired) || r == Err(InvalidToken)
    {
      var claims := token.claims;
      if claims.iss != cfg.issuer {
        return Err(InvalidToken);
      }
      if cfg.audience.Some? && claims.aud != cfg.audience {
        return Err(InvalidToken);
      }
      if now > claims.exp + VERIFY_LEEWAY_SECS {
        return Err(Expired);
      }
      for i := 0 to |cfg.verifying|
        invariant token.signedWith !in cfg.verifying[..i]
      {
        if cfg.verifying[i] == token.signedWith {
          return Ok(claims);
        }
      }
      return Err(InvalidToken);
    }

    method Sign(claims: Claims) returns (r: Result<Token>)
      ensures r == if cfg.signing.Some? then Ok(Token(claims, cfg.signing.value)) else Err(SigningUnavailable)
    {
      if cfg.signing.Some? {
        r := Ok(Token(claims, cfg.signing.value));
      } else {
        r := Err(SigningUnavailable);
      }
    }

    method IssuePair(user: nat, username: string, roles: seq<string>, now: int,
                     sid: string) returns (r: Result<TokenPair>)
      ensures r == IssuedPair(cfg, user, username, roles, now, sid)
      ensures if cfg.signing.None? then r == Err(SigningUnavailable)
              else r.Ok? && IsPair(cfg, r.value, user, username, roles, now, sid)
    {
      var access := Sign(ClaimsFor(cfg, user, username, roles, Access, now, sid));
      if access.Err? {
        return Err(access.error);
      }
      var refresh := Sign(ClaimsFor(cfg, user, username, roles, Refresh, now, sid));
      if refresh.Err? {
        return Err(SigningUnavailable);
      }
      return Ok(TokenPair(access.value, refresh.value));
    }

    /** The session is recorded before the new pair is issued, and only for a token that verifies.
        `meanwhile` is what the store holds by the time its lock is held. */
    method RefreshRotating(token: Token, revocations: RefreshRevocationStore, meanwhile: Entries, verifiedAt: int,
                           now: int, issuedAt: int, newSid: string)
      returns (r: Result<TokenPair>)
      modifies revocations`entries
      ensures
        var session := VerifiedSession(cfg, token, verifiedAt);
        var window := revocations.WindowSecs();
        if session.Err? then r == Err(session.error) && revocations.entries == old(revocations.entries)
        else
          var first := !Revocation.Revoked(meanwhile, session.value.1, now, window);
          && r == Rotated(cfg, token, verifiedAt, issuedAt, first, newSid)
          && revocations.entries == After(meanwhile, window, CheckAndRevoke(session.value.1, now))
      ensures
        var c, held := token.claims, revocations.entries;
        var verifies := && c.iss == cfg.issuer && (cfg.audience.Some? ==> c.aud == cfg.audience)
                        && verifiedAt <= c.exp + 60 && token.signedWith in cfg.verifying
                        && c.tokenType == Refresh && c.sub.UserId? && c.sid.Some?;
        if !verifies then r.Err? && held == old(revocations.entries)
        else if c.sid.value in meanwhile && now <= meanwhile[c.sid.value] + revocations.refreshTtlSecs + 60 then
          r == Err(Revoked) && held == meanwhile
        else
          && (revocations.refreshTtlSecs >= 0 ==> c.sid.value in held && held[c.sid.value] == now)
          && if cfg.signing.None? then r == Err(SigningUnavailable)
             else r.Ok? && IsPair(cfg, r.value, c.sub.id, c.username, c.roles, issuedAt, newSid)
    {
      var verified := VerifyToken(token, verifiedAt);
      if verified.Err? {
        return Err(verified.error);
      }
      var claims := verified.value;
      if claims.tokenType != Refresh || !claims.sub.UserId? || claims.sid.None? {
        return Err(InvalidToken);
      }
      revocations.entries := meanwhile;
      var first := revocations.CheckAndRevoke(claims.sid.value, now);
      if !first {
        return Err(Revoked);
      }
      r := IssuePair(claims.sub.id, claims.username, claims.roles, issuedAt, newSid);
    }
  }

  /** A manager accepts the refresh tokens it issues until 60 seconds past their lifetime. */
  lemma OwnTokensVerify(cfg: Config, user: nat, username: string, roles: seq<string>, now: int, sid: string, later: int)
    requires cfg.signing.Some? && cfg.signing.value in cfg.verifying
    ensures var pair := IssuedPair(cfg, user, username, roles, now, sid);
            && pair.Ok?
            && VerifiedSession(cfg, pair.value.refresh, later)
               == (if later <= now + cfg.refreshTtl + VERIFY_LEEWAY_SECS then Ok((user, sid)) else Err(Expired))
            && VerifiedSession(cfg, pair.value.access, later).Err?
  {
  }

  // ---------- runs of interleaved calls ----------

  type CallId = nat

  /** One step of one of the calls at work, in the order in which they happen.  A step on the store
      happens when its lock is `held`, with a clock reading `now` taken before. */
  datatype Step =
    | Login(user: nat, username: string, roles: seq<string>, newSid: string, now: int)
    | Present(id: CallId, token: Token, now: int)
    | Check(id: CallId, now: int, held: int)
    | Issue(id: CallId, newSid: string, now: int)
    | RevokeSession(sid: string, now: int, held: int)
    | CleanUp(now: int, held: int)

  /** Where a rotation stands. */
  datatype Rotating =
    | Verified(token: Token, user: nat, sid: string, verifiedAt: int)
    | Cleared(token: Token, user: nat, sid: string)
    | Finished(result: Result<TokenPair>)

  /** Who logged in, and with which first session, for a session id. */
  datatype Origin = Origin(loginSid: string, user: nat, username: string, roles: seq<string>)

  /** What exists outside the store: the tokens minted so far, the session ids ever drawn or
      revoked, when each minted session was issued and which login it descends from, and the
      rotations under way. */
  datatype World = World(
    minted: set<Token>, drawn: set<string>, issuedAt: map<string, int>, origin: map<string, Origin>,
    calls: map<CallId, Rotating>)

  datatype State = State(world: World, entries: Entries)

  const START := World({}, {}, map[], map[], map[])

  predicate Enabled(w: World, step: Step) {
    match step
    case Present(id, _, _) => id !in w.calls
    case Check(id, _, _) => id in w.calls && w.calls[id].Verified?
    case Issue(id, _, _) => id in w.calls && w.calls[id].Cleared?
    case _ => true
  }

  function Minted(w: World, pair: Result<TokenPair>, newSid: string, origin: Origin, now: int): World {
    match pair
    case Err(_) => w.(drawn := w.drawn + {newSid})
    case Ok(p) =>
      World(w.minted + {p.access, p.refresh}, w.drawn + {newSid}, w.issuedAt[newSid := now],
            w.origin[newSid := origin], w.calls)
  }

  function Presented(cfg: Config, token: Token, now: int): Rotating {
    match VerifiedSession(cfg, token, now)
    case Err(e) => Finished(Err(e))
    case Ok((user, sid)) => Verified(token, user, sid, now)
  }

  /** The pair of a rotation that was cleared. */
  function NewPair(cfg: Config, c: Rotating, newSid: string, now: int): Result<TokenPair>
    requires c.Cleared?
  {
    IssuedPair(cfg, c.user, c.token.claims.username, c.token.claims.roles, now, newSid)
  }

  function OriginOf(w: World, sid: string): Origin {
    if sid in w.origin then w.origin[sid] else Origin(sid, 0, "", [])
  }

  /** `first` is the verdict of the store on a check. */
  function WorldAfter(cfg: Config, w: World, step: Step, first: bool): World {
    if !Enabled(w, step) then w
    else
      match step
      case Login(user, username, roles, newSid, now) =>
        Minted(w, IssuedPair(cfg, user, username, roles, now, newSid), newSid,
               Origin(newSid, user, username, roles), now)
      case Present(id, token, now) => w.(calls := w.calls[id := Presented(cfg, token, now)])
      case Check(id, now, held) =>
        var c := w.calls[id];
        w.(calls := w.calls[id := if first then Cleared(c.token, c.user, c.sid) else Finished(Err(Revoked))])
      case Issue(id, newSid, now) =>
        var c := w.calls[id];
        var pair := NewPair(cfg, c, newSid, now);
        Minted(w.(calls := w.calls[id := Finished(pair)]), pair, newSid, OriginOf(w, c.sid), now)
      case RevokeSession(sid, _, _) => w.(drawn := w.drawn + {sid})
      case CleanUp(_, _) => w
  }

  /** A check that the store is asked to decide. */
  predicate Decides(w: World, step: Step) { step.Check? && Enabled(w, step) }

  function SidOf(w: World, step: Step): string
    requires Decides(w, step)
  {
    w.calls[step.id].sid
  }

  predicate First(window: int, s: State, step: Step) {
    Decides(s.world, step) && !Revocation.Revoked(s.entries, SidOf(s.world, step), step.now, window)
  }

  function EntriesAfter(window: int, s: State, step: Step): Entries {
    if Decides(s.world, step) then After(s.entries, window, CheckAndRevoke(SidOf(s.world, step), step.now))
    else if step.RevokeSession? then After(s.entries, window, Revoke(step.sid, step.now))
    else if step.CleanUp? then After(s.entries, window, Cleanup(step.now))
    else s.entries
  }

  /** The call of `id` is over with this result. */
  predicate Ended(w: World, id: CallId, r: Result<TokenPair>) { id in w.calls && w.calls[id] == Finished(r) }

  /** A whole rotation is its three steps: it begins in `w`, and others bring the world and the
      store from one step to the next without touching the call.  What it answers, and what it
      leaves of the store it finds when it holds the lock, is that of the steps. */
  lemma RotationIsItsSteps(cfg: Config, window: int, w: World, checked: State, issued: World, id: CallId, token: Token,
                           verifiedAt: int, now: int, held: int, issuedAt: int, newSid: string)
    requires id !in w.calls
    requires var presented := WorldAfter(cfg, w, Present(id, token, verifiedAt), false);
             id in checked.world.calls && checked.world.calls[id] == presented.calls[id]
    requires var step := Check(id, now, held);
             var after := WorldAfter(cfg, checked.world, step, First(window, checked, step));
             id in issued.calls && issued.calls[id] == after.calls[id]
    ensures var session := VerifiedSession(cfg, token, verifiedAt);
            var check := Check(id, now, held);
            if session.Err? then Ended(checked.world, id, Err(session.error))
            else
              var first := !Revocation.Revoked(checked.entries, session.value.1, now, window);
              && Ended(WorldAfter(cfg, issued, Issue(id, newSid, issuedAt), false), id,
                       Rotated(cfg, token, verifiedAt, issuedAt, first, newSid))
              && EntriesAfter(window, checked, check)
                 == After(checked.entries, window, CheckAndRevoke(session.value.1, now))
  {
    hide VerifiedSession, IssuedPair, Revocation.Revoked, Revocation.After;
  }

  /** The state after the first `i` steps, from an empty store. */
  function StateAt(cfg: Config, window: int, steps: seq<Step>, i: nat): State
    requires i <= |steps|
  {
    if i == 0 then State(START, map[])
    else
      var s, step := StateAt(cfg, window, steps, i - 1), steps[i - 1];
      State(WorldAfter(cfg, s.world, step, First(window, s, step)), EntriesAfter(window, s, step))
  }

  /** When a step happens. */
  function Time(step: Step): int {
    if step.Check? || step.RevokeSession? || step.CleanUp? then step.held else step.now
  }

  /** Ideal signatures and fresh session ids.  A check holds the lock at most `wait` seconds after
      its token was verified, and the reading of a revocation is at most `stale` seconds old. */
  ghost predicate Allowed(cfg: Config, wait: nat, stale: nat, w: World, step: Step) {
    && Enabled(w, step)
    && match step
       case Login(_, _, _, newSid, _) => newSid !in w.drawn
       case Present(_, token, _) => token.signedWith in cfg.verifying ==> token in w.minted
       case Check(id, now, held) => w.calls[id].verifiedAt <= now <= held <= w.calls[id].verifiedAt + wait
       case Issue(_, newSid, _) => newSid !in w.drawn
       case RevokeSession(_, now, held) => now <= held <= now + stale
       case CleanUp(now, held) => now <= held
  }

  ghost predicate Possible(cfg: Config, window: int, wait: nat, stale: nat, steps: seq<Step>) {
    && (forall i :: 0 <= i < |steps| ==> Allowed(cfg, wait, stale, StateAt(cfg, window, steps, i).world, steps[i]))
    && (forall i, j :: 0 <= i < j < |steps| ==> Time(steps[i]) <= Time(steps[j]))
  }

  // ---------- the ideal protocol ----------

  /** A session is spent for good once it is checked or revoked. */
  datatype Ideal = Ideal(world: World, spent: set<string>)

  function IdealAfter(cfg: Config, s: Ideal, step: Step): Ideal {
    Ideal(WorldAfter(cfg, s.world, step, Decides(s.world, step) && SidOf(s.world, step) !in s.spent),
          SpentAfter(s.world, s.spent, step))
  }

  function SpentAfter(w: World, spent: set<string>, step: Step): set<string> {
    if Decides(w, step) then spent + {SidOf(w, step)}
    else if step.RevokeSession? then spent + {step.sid}
    else spent
  }

  function IdealAt(cfg: Config, steps: seq<Step>, i: nat): Ideal
    requires i <= |steps|
  {
    if i == 0 then Ideal(START, {}) else IdealAfter(cfg, IdealAt(cfg, steps, i - 1), steps[i - 1])
  }

  // ---------- the invariant ----------

  /** What a store would hold that records every spent session and forgets nothing. */
  function FullAfter(w: World, full: Entries, step: Step): Entries {
    if Decides(w, step) then
      if SidOf(w, step) in full then full else full[SidOf(w, step) := step.now]
    else if step.RevokeSession? then full[step.sid := step.now]
    else full
  }

  function FullAt(cfg: Config, window: int, steps: seq<Step>, i: nat): Entries
    requires i <= |steps|
  {
    if i == 0 then map[]
    else
      var s, full := StateAt(cfg, window, steps, i - 1), FullAt(cfg, window, steps, i - 1);
      FullAfter(s.world, full, steps[i - 1])
  }

  /** Every minted token has a drawn session and the stamp of that session. */
  ghost predicate TokensKnown(cfg: Config, w: World) {
    forall t :: t in w.minted ==>
                  && t.claims.sid.Some? && t.claims.sid.value in w.issuedAt
                  && t.claims.iat == w.issuedAt[t.claims.sid.value]
                  && (t.claims.tokenType == Refresh ==> t.claims.exp == t.claims.iat + cfg.refreshTtl)
  }

  /** A session was issued by now, and recorded at most `stale` seconds before it was issued. */
  ghost predicate SessionsKnown(stale: nat, w: World, full: Entries, clock: int) {
    && full.Keys <= w.drawn
    && forall s :: s in w.issuedAt ==>
                     && s in w.drawn && s in w.origin && w.issuedAt[s] <= clock
                     && (s in full ==> w.issuedAt[s] <= full[s] + stale)
  }

  ghost predicate CallKnown(cfg: Config, w: World, c: Rotating) {
    match c
    case Verified(token, user, sid, verifiedAt) =>
      && token in w.minted && VerifiedSession(cfg, token, verifiedAt) == Ok((user, sid))
      && sid in w.issuedAt && w.issuedAt[sid] <= verifiedAt
    case Cleared(token, user, sid) =>
      token in w.minted && token.claims.sid == Some(sid) && token.claims.sub == UserId(user) && sid in w.issuedAt
    case Finished(_) => true
  }

  ghost predicate CallsKnown(cfg: Config, w: World) {
    forall id :: id in w.calls ==> CallKnown(cfg, w, w.calls[id])
  }

  /** `full` is what a store that never forgets would hold; the real one lacks only entries outside
      the window. */
  ghost predicate Invariant(cfg: Config, window: int, stale: nat, s: State, full: Entries, clock: int) {
    && Forgot(s.entries, full, window, clock) && TokensKnown(cfg, s.world)
    && SessionsKnown(stale, s.world, full, clock) && CallsKnown(cfg, s.world)
  }

  /** The heart of the protocol: when the lock is held, the store knows the session of a verified
      token exactly when that session was ever spent. */
  lemma StoreDecidesAsIdeal(cfg: Config, window: int, wait: nat, stale: nat, s: State, full: Entries, clock: int,
                            step: Step)
    requires Invariant(cfg, window, stale, s, full, clock) && clock <= Time(step)
    requires Allowed(cfg, wait, stale, s.world, step) && step.Check?
    requires window >= cfg.refreshTtl + wait + stale + VERIFY_LEEWAY_SECS
    ensures First(window, s, step) <==> SidOf(s.world, step) !in full
  {
    hide Revocation.Revoked;
    var c := s.world.calls[step.id];
    assert CallKnown(cfg, s.world, c);
    VerifiedInTime(cfg, c.token, c.verifiedAt);
    if c.sid in full {
      assert c.sid in s.entries && s.entries[c.sid] == full[c.sid];
    }
    RevokedMeans(s.entries, c.sid, step.now, window);
  }

  lemma RevokedMeans(entries: Entries, sid: string, now: int, window: int)
    ensures Revocation.Revoked(entries, sid, now, window) <==> sid in entries && now <= entries[sid] + window
  {
  }

  lemma VerifiedInTime(cfg: Config, token: Token, verifiedAt: int)
    requires VerifiedSession(cfg, token, verifiedAt).Ok?
    ensures verifiedAt <= token.claims.exp + VERIFY_LEEWAY_SECS && token.claims.tokenType == Refresh
    ensures token.claims.sub == UserId(VerifiedSession(cfg, token, verifiedAt).value.0)
    ensures token.claims.sid == Some(VerifiedSession(cfg, token, verifiedAt).value.1)
    ensures token.signedWith in cfg.verifying
  {
  }

  lemma EntriesKept(cfg: Config, window: int, wait: nat, stale: nat, s: State, full: Entries, clock: int, step: Step)
    requires Invariant(cfg, window, stale, s, full, clock) && clock <= Time(step)
    requires Allowed(cfg, wait, stale, s.world, step)
    requires window >= cfg.refreshTtl + wait + stale + VERIFY_LEEWAY_SECS
    ensures Forgot(EntriesAfter(window, s, step), FullAfter(s.world, full, step), window, Time(step))
  {
    hide VerifiedSession, TokensKnown, SessionsKnown, CallsKnown;
    if step.Check? {
      StoreDecidesAsIdeal(cfg, window, wait, stale, s, full, clock, step);
      RevokedMeans(s.entries, SidOf(s.world, step), step.now, window);
    }
  }

  lemma SessionsKept(cfg: Config, wait: nat, stale: nat, w: World, full: Entries, clock: int, step: Step, first: bool)
    requires SessionsKnown(stale, w, full, clock) && CallsKnown(cfg, w) && clock <= Time(step)
    requires Allowed(cfg, wait, stale, w, step)
    ensures SessionsKnown(stale, WorldAfter(cfg, w, step, first), FullAfter(w, full, step), Time(step))
  {
    hide VerifiedSession, IssuedPair, Presented;
    if step.Check? {
      assert CallKnown(cfg, w, w.calls[step.id]);
    }
    if step.Issue? {
      assert CallKnown(cfg, w, w.calls[step.id]);
    }
  }

  lemma TokensKept(cfg: Config, wait: nat, stale: nat, w: World, full: Entries, clock: int, step: Step, first: bool)
    requires TokensKnown(cfg, w) && SessionsKnown(stale, w, full, clock)
    requires Allowed(cfg, wait, stale, w, step)
    ensures TokensKnown(cfg, WorldAfter(cfg, w, step, first))
    ensures var w' := WorldAfter(cfg, w, step, first);
            w.minted <= w'.minted && forall s :: s in w.issuedAt ==> s in w'.issuedAt && w'.issuedAt[s] == w.issuedAt[s]
  {
    hide VerifiedSession, Presented;
  }

  lemma CallsKept(cfg: Config, wait: nat, stale: nat, w: World, full: Entries, clock: int, step: Step, first: bool)
    requires TokensKnown(cfg, w) && SessionsKnown(stale, w, full, clock) && CallsKnown(cfg, w) && clock <= Time(step)
    requires Allowed(cfg, wait, stale, w, step)
    ensures CallsKnown(cfg, WorldAfter(cfg, w, step, first))
  {
    var w' := WorldAfter(cfg, w, step, first);
    TokensKept(cfg, wait, stale, w, full, clock, step, first);
    hide VerifiedSession, IssuedPair, TokensKnown, SessionsKnown;
    forall id | id in w'.calls ensures CallKnown(cfg, w', w'.calls[id]) {
      if id in w.calls && w'.calls[id] == w.calls[id] {
        assert CallKnown(cfg, w, w.calls[id]);
      } else {
        NewCallKnown(cfg, wait, stale, w, full, clock, step, first);
      }
    }
  }

  lemma NewCallKnown(cfg: Config, wait: nat, stale: nat, w: World, full: Entries, clock: int, step: Step, first: bool)
    requires TokensKnown(cfg, w) && SessionsKnown(stale, w, full, clock) && CallsKnown(cfg, w) && clock <= Time(step)
    requires Allowed(cfg, wait, stale, w, step) && (step.Present? || step.Check? || step.Issue?)
    ensures var w' := WorldAfter(cfg, w, step, first);
            step.id in w'.calls && CallKnown(cfg, w', w'.calls[step.id])
  {
    hide IssuedPair;
    if step.Present? {
      if VerifiedSession(cfg, step.token, step.now).Ok? {
        VerifiedInTime(cfg, step.token, step.now);
      }
    } else {
      var c := w.calls[step.id];
      assert CallKnown(cfg, w, c);
      if step.Check? {
        VerifiedInTime(cfg, c.token, c.verifiedAt);
      }
    }
  }

  lemma InvariantKept(cfg: Config, window: int, wait: nat, stale: nat, s: State, full: Entries, clock: int, step: Step)
    requires Invariant(cfg, window, stale, s, full, clock) && clock <= Time(step)
    requires Allowed(cfg, wait, stale, s.world, step)
    requires window >= cfg.refreshTtl + wait + stale + VERIFY_LEEWAY_SECS
    ensures var next := State(WorldAfter(cfg, s.world, step, First(window, s, step)), EntriesAfter(window, s, step));
            Invariant(cfg, window, stale, next, FullAfter(s.world, full, step), Time(step))
  {
    hide Forgot, TokensKnown, SessionsKnown, CallsKnown, Allowed, WorldAfter, EntriesAfter, First, FullAfter;
    var first := First(window, s, step);
    EntriesKept(cfg, window, wait, stale, s, full, clock, step);
    SessionsKept(cfg, wait, stale, s.world, full, clock, step, first);
    TokensKept(cfg, wait, stale, s.world, full, clock, step, first);
    CallsKept(cfg, wait, stale, s.world, full, clock, step, first);
  }

  /** The time of the last of the first `i` steps. */
  function ClockAt(steps: seq<Step>, i: nat): int
    requires 0 < i <= |steps|
  {
    Time(steps[i - 1])
  }

  /** In every interleaving, the store answers like the ideal protocol that remembers every spent
      session for ever: tokens, sessions and the standing of every call are the same. */
  lemma {:induction false} RotationRefinesIdeal(cfg: Config, window: int, wait: nat, stale: nat, steps: seq<Step>,
                                                i: nat)
    requires Possible(cfg, window, wait, stale, steps) && i <= |steps|
    requires window >= cfg.refreshTtl + wait + stale + VERIFY_LEEWAY_SECS
    ensures var s, full := StateAt(cfg, window, steps, i), FullAt(cfg, window, steps, i);
            && IdealAt(cfg, steps, i) == Ideal(s.world, full.Keys)
            && forall clock :: (i > 0 ==> ClockAt(steps, i) <= clock) ==> Invariant(cfg, window, stale, s, full, clock)
  {
    hide WorldAfter, EntriesAfter, First, FullAfter, Allowed, SpentAfter, Decides;
    if i > 0 {
      RotationRefinesIdeal(cfg, window, wait, stale, steps, i - 1);
      var s, full, step := StateAt(cfg, window, steps, i - 1), FullAt(cfg, window, steps, i - 1), steps[i - 1];
      var clock := if i == 1 then Time(step) else ClockAt(steps, i - 1);
      InvariantKept(cfg, window, wait, stale, s, full, clock, step);
      SameVerdict(cfg, window, wait, stale, s, full, clock, step);
      forall later | Time(step) <= later
        ensures Invariant(cfg, window, stale, StateAt(cfg, window, steps, i), FullAt(cfg, window, steps, i), later)
      {
        InvariantAges(cfg, window, stale, StateAt(cfg, window, steps, i), FullAt(cfg, window, steps, i), Time(step),
                      later);
      }
    } else {
      var empty: Entries := map[];
      assert empty.Keys == {};
    }
  }

  lemma SameVerdict(cfg: Config, window: int, wait: nat, stale: nat, s: State, full: Entries, clock: int, step: Step)
    requires Invariant(cfg, window, stale, s, full, clock) && clock <= Time(step)
    requires Allowed(cfg, wait, stale, s.world, step)
    requires window >= cfg.refreshTtl + wait + stale + VERIFY_LEEWAY_SECS
    ensures IdealAfter(cfg, Ideal(s.world, full.Keys), step)
         == Ideal(WorldAfter(cfg, s.world, step, First(window, s, step)), FullAfter(s.world, full, step).Keys)
  {
    hide WorldAfter, Revocation.Revoked, Invariant;
    if step.Check? {
      StoreDecidesAsIdeal(cfg, window, wait, stale, s, full, clock, step);
    }
  }

  lemma InvariantAges(cfg: Config, window: int, stale: nat, s: State, full: Entries, clock: int, later: int)
    requires Invariant(cfg, window, stale, s, full, clock) && clock <= later
    ensures Invariant(cfg, window, stale, s, full, later)
  {
    hide TokensKnown, CallsKnown;
  }

  // ---------- what the protocol guarantees ----------

  /** Step `i` is a check of session `sid`. */
  ghost predicate Checks(cfg: Config, window: int, steps: seq<Step>, i: nat, sid: string) {
    i < |steps| && Decides(StateAt(cfg, window, steps, i).world, steps[i])
    && SidOf(StateAt(cfg, window, steps, i).world, steps[i]) == sid
  }

  /** A check that the store lets through. */
  ghost predicate Passes(cfg: Config, window: int, steps: seq<Step>, i: nat, sid: string) {
    Checks(cfg, window, steps, i, sid) && First(window, StateAt(cfg, window, steps, i), steps[i])
  }

  ghost predicate Spends(cfg: Config, window: int, steps: seq<Step>, i: nat, sid: string) {
    Checks(cfg, window, steps, i, sid) || (i < |steps| && steps[i].RevokeSession? && steps[i].sid == sid)
  }

  lemma {:induction false} SpentBySteps(cfg: Config, window: int, wait: nat, stale: nat, steps: seq<Step>, i: nat,
                                        sid: string)
    requires Possible(cfg, window, wait, stale, steps) && i <= |steps|
    requires window >= cfg.refreshTtl + wait + stale + VERIFY_LEEWAY_SECS
    ensures sid in IdealAt(cfg, steps, i).spent <==> exists k: nat :: k < i && Spends(cfg, window, steps, k, sid)
  {
    hide Possible, StateAt, IdealAfter, Spends;
    if i > 0 {
      SpentBySteps(cfg, window, wait, stale, steps, i - 1, sid);
      RotationRefinesIdeal(cfg, window, wait, stale, steps, i - 1);
      SpendStep(cfg, window, steps, i - 1, sid);
      if Spends(cfg, window, steps, i - 1, sid) {
        assert i - 1 < i;
      }
    }
  }

  lemma SpendStep(cfg: Config, window: int, steps: seq<Step>, i: nat, sid: string)
    requires i < |steps| && IdealAt(cfg, steps, i).world == StateAt(cfg, window, steps, i).world
    ensures sid in IdealAt(cfg, steps, i + 1).spent
       <==> sid in IdealAt(cfg, steps, i).spent || Spends(cfg, window, steps, i, sid)
  {
    hide StateAt, WorldAfter, Enabled;
  }

  /** Over any run, a check passes exactly when its session was never checked or revoked before,
      however long ago and however much the store has pruned since. */
  lemma PassesExactlyWhenUnspent(cfg: Config, window: int, wait: nat, stale: nat, steps: seq<Step>, i: nat, sid: string)
    requires Possible(cfg, window, wait, stale, steps) && Checks(cfg, window, steps, i, sid)
    requires window >= cfg.refreshTtl + wait + stale + VERIFY_LEEWAY_SECS
    ensures Passes(cfg, window, steps, i, sid) <==> forall k: nat :: k < i ==> !Spends(cfg, window, steps, k, sid)
  {
    hide StateAt, Invariant, First, Spends;
    SpentBySteps(cfg, window, wait, stale, steps, i, sid);
    RotationRefinesIdeal(cfg, window, wait, stale, steps, i);
    StoreDecidesAsIdeal(cfg, window, wait, stale, StateAt(cfg, window, steps, i), FullAt(cfg, window, steps, i),
                        Time(steps[i]), steps[i]);
  }

  /** No session passes twice, also when its token is presented many times at once. */
  lemma NeverUsedTwice(cfg: Config, window: int, wait: nat, stale: nat, steps: seq<Step>, i: nat, j: nat, sid: string)
    requires Possible(cfg, window, wait, stale, steps) && i < j
    requires window >= cfg.refreshTtl + wait + stale + VERIFY_LEEWAY_SECS
    ensures !(Passes(cfg, window, steps, i, sid) && Passes(cfg, window, steps, j, sid))
  {
    hide Possible, StateAt, First;
    if Passes(cfg, window, steps, j, sid) {
      PassesExactlyWhenUnspent(cfg, window, wait, stale, steps, j, sid);
      assert !Spends(cfg, window, steps, i, sid);
    }
  }

  /** Of all the checks of a session that is not revoked, overlapping or not, exactly one passes:
      the first to hold the lock. */
  lemma {:induction false} ExactlyOnePasses(cfg: Config, window: int, wait: nat, stale: nat, steps: seq<Step>, j: nat,
                                            sid: string)
    requires Possible(cfg, window, wait, stale, steps) && Checks(cfg, window, steps, j, sid)
    requires window >= cfg.refreshTtl + wait + stale + VERIFY_LEEWAY_SECS
    requires forall k: nat :: k < j ==> !(steps[k].RevokeSession? && steps[k].sid == sid)
    ensures exists i: nat :: && i <= j && Passes(cfg, window, steps, i, sid)
                             && forall k: nat :: k != i ==> !Passes(cfg, window, steps, k, sid)
    decreases j
  {
    hide Possible, StateAt, Passes, Checks, First;
    if k: nat :| k < j && Checks(cfg, window, steps, k, sid) {
      ExactlyOnePasses(cfg, window, wait, stale, steps, k, sid);
    } else {
      forall k: nat | k < j ensures !Spends(cfg, window, steps, k, sid) {
        assert !Checks(cfg, window, steps, k, sid);
      }
      PassesExactlyWhenUnspent(cfg, window, wait, stale, steps, j, sid);
      forall k: nat | k != j ensures !Passes(cfg, window, steps, k, sid) {
        if k < j {
          PassesIsCheck(cfg, window, steps, k, sid);
        } else {
          NeverUsedTwice(cfg, window, wait, stale, steps, j, k, sid);
        }
      }
    }
  }

  lemma PassesIsCheck(cfg: Config, window: int, steps: seq<Step>, i: nat, sid: string)
    ensures Passes(cfg, window, steps, i, sid) ==> Checks(cfg, window, steps, i, sid)
  {
  }

  /** A check of a revoked session never passes, even if its token was verified before. */
  lemma RevokedSessionNeverRotates(cfg: Config, window: int, wait: nat, stale: nat, steps: seq<Step>, i: nat, j: nat,
                                   sid: string)
    requires Possible(cfg, window, wait, stale, steps) && i < j < |steps|
    requires window >= cfg.refreshTtl + wait + stale + VERIFY_LEEWAY_SECS
    requires steps[i].RevokeSession? && steps[i].sid == sid
    ensures !Passes(cfg, window, steps, j, sid)
  {
    hide Possible, StateAt, Passes, Spends;
    RevocationSpends(cfg, window, steps, i, sid);
    PassesIsCheck(cfg, window, steps, j, sid);
    if Passes(cfg, window, steps, j, sid) {
      PassesExactlyWhenUnspent(cfg, window, wait, stale, steps, j, sid);
    }
  }

  lemma RevocationSpends(cfg: Config, window: int, steps: seq<Step>, i: nat, sid: string)
    requires i < |steps| && steps[i].RevokeSession? && steps[i].sid == sid
    ensures Spends(cfg, window, steps, i, sid)
  {
  }

  // ---------- the exact condition ----------

  /** What a store built for `storeTtl` takes as its window. */
  function WindowOf(storeTtl: int): int { storeTtl + VERIFY_LEEWAY_SECS }

  ghost predicate UsedTwice(cfg: Config, window: int, wait: nat, stale: nat, steps: seq<Step>, i: nat, j: nat,
                            sid: string)
  {
    && i < j && Possible(cfg, window, wait, stale, steps)
    && Passes(cfg, window, steps, i, sid) && Passes(cfg, window, steps, j, sid)
  }

  /** With a store built for `storeTtl`, no session ever passes twice in a possible run. */
  ghost predicate AtMostOnce(cfg: Config, storeTtl: int, wait: nat, stale: nat) {
    forall steps: seq<Step>, i: nat, j: nat, sid: string ::
      !UsedTwice(cfg, WindowOf(storeTtl), wait, stale, steps, i, j, sid)
  }

  /** The token of a log-in at `stale`. */
  function LateToken(cfg: Config, stale: nat): Token
    requires cfg.signing.Some?
  {
    IssuedPair(cfg, 0, "", [], stale, "a").value.refresh
  }

  /** The last moment at which it verifies. */
  function LastMoment(cfg: Config, stale: nat): int { stale + cfg.refreshTtl + VERIFY_LEEWAY_SECS }

  /** A log-in, a rotation at once, a revocation with an old reading, and the same token again, verified at the
      last moment and checked as late after that as may be. */
  function LateReuse(cfg: Config, wait: nat, stale: nat): seq<Step>
    requires cfg.signing.Some?
  {
    var token, last := LateToken(cfg, stale), LastMoment(cfg, stale);
    [Login(0, "", [], "a", stale), Present(0, token, stale), Check(0, stale, stale), RevokeSession("a", 0, stale),
     Present(1, token, last), Check(1, last + wait, last + wait)]
  }

  lemma StepOn(cfg: Config, window: int, steps: seq<Step>, i: nat, s: State, first: bool, entries: Entries)
    requires i < |steps| && StateAt(cfg, window, steps, i) == s
    requires First(window, s, steps[i]) == first && EntriesAfter(window, s, steps[i]) == entries
    ensures StateAt(cfg, window, steps, i + 1) == State(WorldAfter(cfg, s.world, steps[i], first), entries)
  {
  }

  /** The world of `LateReuse` after its log-in, with these calls. */
  function LateWorld(cfg: Config, stale: nat, calls: map<CallId, Rotating>): World
    requires cfg.signing.Some?
  {
    var pair := IssuedPair(cfg, 0, "", [], stale, "a").value;
    World({pair.access, pair.refresh}, {"a"}, map["a" := stale], map["a" := Origin("a", 0, "", [])], calls)
  }

  lemma LateSteps(cfg: Config, wait: nat, stale: nat, calls: map<CallId, Rotating>)
    requires cfg.signing.Some? && cfg.signing.value in cfg.verifying
    ensures var steps, token, last := LateReuse(cfg, wait, stale), LateToken(cfg, stale), LastMoment(cfg, stale);
            && WorldAfter(cfg, START, steps[0], false) == LateWorld(cfg, stale, map[])
            && (0 !in calls
                ==> WorldAfter(cfg, LateWorld(cfg, stale, calls), steps[1], false)
                    == LateWorld(cfg, stale, calls[0 := Verified(token, 0, "a", stale)]))
            && (1 !in calls
                ==> WorldAfter(cfg, LateWorld(cfg, stale, calls), steps[4], false)
                    == LateWorld(cfg, stale, calls[1 := Verified(token, 0, "a", last)]))
            && WorldAfter(cfg, LateWorld(cfg, stale, calls), steps[3], false) == LateWorld(cfg, stale, calls)
            && token in LateWorld(cfg, stale, calls).minted
  {
    hide VerifiedSession;
    OwnTokensVerify(cfg, 0, "", [], stale, "a", stale);
    OwnTokensVerify(cfg, 0, "", [], stale, "a", LastMoment(cfg, stale));
    assert LateWorld(cfg, stale, calls).drawn + {"a"} == {"a"};
  }

  lemma LateEntries(window: int, recorded: int, now: int)
    ensures After(map[], window, CheckAndRevoke("a", now)) == map["a" := now]
    ensures After(map["a" := recorded], window, Revoke("a", now)) == map["a" := now]
  {
    var empty, one: Entries := map[], map["a" := recorded];
    assert |empty["a" := now]| == 1 && one["a" := now] == map["a" := now];
    assert |one["a" := now]| == 1;
  }

  lemma LateReusePasses(cfg: Config, storeTtl: int, wait: nat, stale: nat)
    requires cfg.signing.Some? && cfg.signing.value in cfg.verifying && storeTtl < cfg.refreshTtl + wait + stale
    ensures var steps, window := LateReuse(cfg, wait, stale), storeTtl + VERIFY_LEEWAY_SECS;
            var token, last := LateToken(cfg, stale), LastMoment(cfg, stale);
            var cleared: map<CallId, Rotating> := map[0 := Cleared(token, 0, "a")];
            && StateAt(cfg, window, steps, 0) == State(START, map[])
            && StateAt(cfg, window, steps, 1) == State(LateWorld(cfg, stale, map[]), map[])
            && StateAt(cfg, window, steps, 2)
               == State(LateWorld(cfg, stale, map[0 := Verified(token, 0, "a", stale)]), map[])
            && First(window, StateAt(cfg, window, steps, 2), steps[2])
            && StateAt(cfg, window, steps, 3) == State(LateWorld(cfg, stale, cleared), map["a" := stale])
            && StateAt(cfg, window, steps, 4) == State(LateWorld(cfg, stale, cleared), map["a" := 0])
            && StateAt(cfg, window, steps, 5)
               == State(LateWorld(cfg, stale, cleared[1 := Verified(token, 0, "a", last)]), map["a" := 0])
            && First(window, StateAt(cfg, window, steps, 5), steps[5])
  {
    hide StateAt, VerifiedSession, IssuedPair, LateToken, After;
    var steps, window := LateReuse(cfg, wait, stale), storeTtl + VERIFY_LEEWAY_SECS;
    var token, last := LateToken(cfg, stale), LastMoment(cfg, stale);
    var verified: map<CallId, Rotating> := map[0 := Verified(token, 0, "a", stale)];
    var cleared: map<CallId, Rotating> := map[0 := Cleared(token, 0, "a")];
    StartState(cfg, window, steps);
    LateSteps(cfg, wait, stale, map[]);
    LateSteps(cfg, wait, stale, cleared);
    LateEntries(window, stale, stale);
    LateEntries(window, stale, 0);
    hide WorldAfter;
    StepOn(cfg, window, steps, 0, State(START, map[]), false, map[]);
    StepOn(cfg, window, steps, 1, State(LateWorld(cfg, stale, map[]), map[]), false, map[]);
    StepOn(cfg, window, steps, 2, State(LateWorld(cfg, stale, verified), map[]), true, map["a" := stale]);
    LateCheck(cfg, wait, stale);
    StepOn(cfg, window, steps, 3, State(LateWorld(cfg, stale, cleared), map["a" := stale]), false, map["a" := 0]);
    StepOn(cfg, window, steps, 4, State(LateWorld(cfg, stale, cleared), map["a" := 0]), false, map["a" := 0]);
  }

  lemma StartState(cfg: Config, window: int, steps: seq<Step>)
    ensures StateAt(cfg, window, steps, 0) == State(START, map[])
  {
  }

  lemma LateCheck(cfg: Config, wait: nat, stale: nat)
    requires cfg.signing.Some?
    ensures var token := LateToken(cfg, stale);
            var w := LateWorld(cfg, stale, map[0 := Verified(token, 0, "a", stale)]);
            WorldAfter(cfg, w, LateReuse(cfg, wait, stale)[2], true)
            == LateWorld(cfg, stale, map[0 := Cleared(token, 0, "a")])
  {
    hide IssuedPair;
  }

  lemma ShortWindowAllowsReuse(cfg: Config, storeTtl: int, wait: nat, stale: nat)
    requires cfg.signing.Some? && cfg.signing.value in cfg.verifying && storeTtl < cfg.refreshTtl + wait + stale
    ensures var steps, window := LateReuse(cfg, wait, stale), storeTtl + VERIFY_LEEWAY_SECS;
            && Possible(cfg, window, wait, stale, steps)
            && Passes(cfg, window, steps, 2, "a") && Passes(cfg, window, steps, 5, "a")
  {
    hide StateAt, VerifiedSession, IssuedPair, LateToken, First, WorldAfter;
    var steps, window := LateReuse(cfg, wait, stale), storeTtl + VERIFY_LEEWAY_SECS;
    LateReusePasses(cfg, storeTtl, wait, stale);
    LateSteps(cfg, wait, stale, map[]);
    forall i | 0 <= i < |steps| ensures Allowed(cfg, wait, stale, StateAt(cfg, window, steps, i).world, steps[i]) {
    }
  }

  /** In every interleaving each session passes at most once, ever, exactly when the store was built
      for the token lifetime, the time from verifying a token to holding the lock, and the age of the
      readings with which sessions are revoked, taken together. */
  lemma AtMostOnceExactly(cfg: Config, storeTtl: int, wait: nat, stale: nat)
    requires cfg.signing.Some? && cfg.signing.value in cfg.verifying
    ensures AtMostOnce(cfg, storeTtl, wait, stale) <==> storeTtl >= cfg.refreshTtl + wait + stale
  {
    hide Possible, Passes;
    if storeTtl >= cfg.refreshTtl + wait + stale {
      forall steps: seq<Step>, i: nat, j: nat, sid: string
        ensures !UsedTwice(cfg, WindowOf(storeTtl), wait, stale, steps, i, j, sid)
      {
        if i < j && Possible(cfg, WindowOf(storeTtl), wait, stale, steps) {
          NeverUsedTwice(cfg, WindowOf(storeTtl), wait, stale, steps, i, j, sid);
        }
      }
    } else {
      ShortWindowAllowsReuse(cfg, storeTtl, wait, stale);
      assert UsedTwice(cfg, WindowOf(storeTtl), wait, stale, LateReuse(cfg, wait, stale), 2, 5, "a");
    }
  }

  // ---------- chains ----------

  ghost predicate Unrotated(w: World, spent: set<string>, t: Token) {
    t in w.minted && t.claims.tokenType == Refresh && t.claims.sid.Some? && t.claims.sid.value !in spent
  }

  /** Every minted token carries the user and the roles of the login it descends from. */
  ghost predicate Descends(w: World) {
    forall t :: t in w.minted ==>
                  && t.claims.sid.Some? && t.claims.sid.value in w.origin && t.claims.sub.UserId?
                  && var o := w.origin[t.claims.sid.value];
                  t.claims.sub.id == o.user && t.claims.username == o.username && t.claims.roles == o.roles
  }

  /** What keeps a login alive: a token not spent yet, or a rotation that was cleared and will issue one. */
  datatype Holder = HeldBy(token: Token) | HeldIn(id: CallId)

  ghost predicate Holds(w: World, spent: set<string>, login: string, h: Holder) {
    match h
    case HeldBy(t) => Unrotated(w, spent, t) && OriginOf(w, t.claims.sid.value).loginSid == login
    case HeldIn(id) => id in w.calls && w.calls[id].Cleared? && OriginOf(w, w.calls[id].sid).loginSid == login
  }

  ghost predicate OneHolder(w: World, spent: set<string>) {
    forall login, h, k :: Holds(w, spent, login, h) && Holds(w, spent, login, k) ==> h == k
  }

  ghost predicate OriginsDrawn(w: World) {
    forall s :: s in w.origin ==> s in w.drawn && w.origin[s].loginSid in w.drawn
  }

  ghost predicate Chains(w: World, spent: set<string>) {
    Descends(w) && OneHolder(w, spent) && OriginsDrawn(w)
  }

  ghost predicate CallsDescend(w: World) {
    forall id :: id in w.calls && w.calls[id].Cleared? ==> w.calls[id].sid in w.origin
  }

  /** Fewer holders, and nothing newly minted. */
  lemma FewerHolders(w: World, spent: set<string>, w': World, spent': set<string>)
    requires Chains(w, spent) && w'.minted == w.minted && w'.origin == w.origin && w.drawn <= w'.drawn
    requires spent <= spent'
    requires forall id :: id in w'.calls && w'.calls[id].Cleared? ==> id in w.calls && w.calls[id] == w'.calls[id]
    ensures Chains(w', spent')
  {
    forall login, h | Holds(w', spent', login, h) ensures Holds(w, spent, login, h) {
    }
  }

  /** Minting for a login that nothing keeps alive any more. */
  lemma MintingKeepsChains(cfg: Config, w: World, spent: set<string>, pair: Result<TokenPair>, newSid: string,
                           o: Origin, now: int)
    requires Chains(w, spent) && CallsDescend(w) && newSid !in w.drawn
    requires pair.Err? || pair == IssuedPair(cfg, o.user, o.username, o.roles, now, newSid)
    requires o.loginSid == newSid || o.loginSid in w.drawn
    requires forall h :: !Holds(w, spent, o.loginSid, h)
    ensures Chains(Minted(w, pair, newSid, o, now), spent)
  {
    var w' := Minted(w, pair, newSid, o, now);
    if pair.Err? {
      FewerHolders(w, spent, w', spent);
    } else {
      var p := pair.value;
      forall login, h | Holds(w', spent, login, h)
        ensures (h == HeldBy(p.refresh) && login == o.loginSid) || Holds(w, spent, login, h)
      {
        if h.HeldBy? && h.token in w.minted {
          assert h.token.claims.sid.value in w.origin;
        }
      }
    }
  }

  lemma NobodyHolds(w: World, spent: set<string>, login: string)
    requires Chains(w, spent) && CallsDescend(w) && login !in w.drawn
    ensures forall h :: !Holds(w, spent, login, h)
  {
  }

  lemma LoginKeepsChains(cfg: Config, w: World, spent: set<string>, step: Step)
    requires Chains(w, spent) && CallsDescend(w) && step.Login? && step.newSid !in w.drawn
    ensures Chains(WorldAfter(cfg, w, step, false), spent)
  {
    hide Chains, CallsDescend, IssuedPair, Holds;
    NobodyHolds(w, spent, step.newSid);
    MintingKeepsChains(cfg, w, spent, IssuedPair(cfg, step.user, step.username, step.roles, step.now, step.newSid),
                       step.newSid, Origin(step.newSid, step.user, step.username, step.roles), step.now);
  }

  /** A check that passes turns the hold of its token into a hold of its call. */
  lemma CheckKeepsChains(w: World, spent: set<string>, id: CallId, c: Rotating, w': World)
    requires Chains(w, spent) && id in w.calls && w.calls[id] == c && c.Verified? && c.sid !in spent
    requires c.token in w.minted && c.token.claims.tokenType == Refresh && c.token.claims.sid == Some(c.sid)
    requires w' == w.(calls := w.calls[id := Cleared(c.token, c.user, c.sid)])
    ensures Chains(w', spent + {c.sid})
  {
    var login := OriginOf(w, c.sid).loginSid;
    assert Holds(w, spent, login, HeldBy(c.token));
    forall l, h | Holds(w', spent + {c.sid}, l, h)
      ensures (h == HeldIn(id) && l == login) || (Holds(w, spent, l, h) && h != HeldBy(c.token))
    {
    }
  }

  /** Issuing turns the hold of a call into the hold of the new token. */
  lemma IssueKeepsChains(cfg: Config, w: World, spent: set<string>, id: CallId, c: Rotating, newSid: string, now: int)
    requires Chains(w, spent) && CallsDescend(w) && newSid !in w.drawn
    requires id in w.calls && w.calls[id] == c && c.Cleared?
    requires c.token in w.minted && c.token.claims.sid == Some(c.sid) && c.token.claims.sub == UserId(c.user)
    ensures var pair := NewPair(cfg, c, newSid, now);
            Chains(Minted(w.(calls := w.calls[id := Finished(pair)]), pair, newSid, OriginOf(w, c.sid), now), spent)
  {
    var pair := NewPair(cfg, c, newSid, now);
    var w1 := w.(calls := w.calls[id := Finished(pair)]);
    var o := OriginOf(w, c.sid);
    hide IssuedPair;
    assert Holds(w, spent, o.loginSid, HeldIn(id));
    FewerHolders(w, spent, w1, spent);
    forall h ensures !Holds(w1, spent, o.loginSid, h) {
      assert Holds(w1, spent, o.loginSid, h) ==> Holds(w, spent, o.loginSid, h);
    }
    MintingKeepsChains(cfg, w1, spent, pair, newSid, o, now);
  }

  lemma ChainsKept(cfg: Config, wait: nat, stale: nat, w: World, full: Entries, clock: int, step: Step)
    requires Chains(w, full.Keys) && Allowed(cfg, wait, stale, w, step)
    requires TokensKnown(cfg, w) && SessionsKnown(stale, w, full, clock) && CallsKnown(cfg, w)
    ensures var first := Decides(w, step) && SidOf(w, step) !in full.Keys;
            Chains(WorldAfter(cfg, w, step, first), SpentAfter(w, full.Keys, step))
  {
    hide Chains, IssuedPair, VerifiedSession, TokensKnown, NewPair, Minted;
    ClearedDescend(cfg, stale, w, full, clock);
    match step
    case Login(_, _, _, _, _) => LoginKeepsChains(cfg, w, full.Keys, step);
    case Present(id, token, now) =>
      FewerHolders(w, full.Keys, WorldAfter(cfg, w, step, false), full.Keys);
    case Check(id, now, held) =>
      var c := w.calls[id];
      assert CallKnown(cfg, w, c);
      VerifiedInTime(cfg, c.token, c.verifiedAt);
      if c.sid in full.Keys {
        FewerHolders(w, full.Keys, WorldAfter(cfg, w, step, false), full.Keys + {c.sid});
      } else {
        CheckKeepsChains(w, full.Keys, id, c, WorldAfter(cfg, w, step, true));
      }
    case Issue(id, newSid, now) =>
      assert CallKnown(cfg, w, w.calls[id]);
      IssueKeepsChains(cfg, w, full.Keys, id, w.calls[id], newSid, now);
    case RevokeSession(sid, _, _) => FewerHolders(w, full.Keys, WorldAfter(cfg, w, step, false), full.Keys + {sid});
    case CleanUp(_, _) =>
  }

  lemma ClearedDescend(cfg: Config, stale: nat, w: World, full: Entries, clock: int)
    requires SessionsKnown(stale, w, full, clock) && CallsKnown(cfg, w)
    ensures CallsDescend(w)
  {
    hide VerifiedSession;
    forall id | id in w.calls && w.calls[id].Cleared? ensures w.calls[id].sid in w.origin {
      assert CallKnown(cfg, w, w.calls[id]);
    }
  }

  lemma ChainsStep(cfg: Config, window: int, wait: nat, stale: nat, s: State, full: Entries, clock: int, step: Step)
    requires Invariant(cfg, window, stale, s, full, clock) && clock <= Time(step)
    requires Allowed(cfg, wait, stale, s.world, step) && Chains(s.world, full.Keys)
    requires window >= cfg.refreshTtl + wait + stale + VERIFY_LEEWAY_SECS
    ensures Chains(WorldAfter(cfg, s.world, step, First(window, s, step)), FullAfter(s.world, full, step).Keys)
  {
    hide Chains, Allowed, WorldAfter, SpentAfter, First, Decides, FullAfter;
    hide Forgot, TokensKnown, CallsKnown, SessionsKnown;
    SameVerdict(cfg, window, wait, stale, s, full, clock, step);
    ChainsKept(cfg, wait, stale, s.world, full, clock, step);
  }

  lemma AllowedAt(cfg: Config, window: int, wait: nat, stale: nat, steps: seq<Step>, i: nat)
    requires Possible(cfg, window, wait, stale, steps) && i < |steps|
    ensures Allowed(cfg, wait, stale, StateAt(cfg, window, steps, i).world, steps[i])
    ensures i > 0 ==> ClockAt(steps, i) <= Time(steps[i])
  {
    hide StateAt, Allowed;
  }

  lemma {:induction false} ChainsOverRuns(cfg: Config, window: int, wait: nat, stale: nat, steps: seq<Step>, i: nat)
    requires Possible(cfg, window, wait, stale, steps) && i <= |steps|
    requires window >= cfg.refreshTtl + wait + stale + VERIFY_LEEWAY_SECS
    ensures Chains(StateAt(cfg, window, steps, i).world, FullAt(cfg, window, steps, i).Keys)
  {
    hide Chains, Allowed, WorldAfter, First, FullAfter, EntriesAfter, Invariant, IdealAt, Possible;
    if i == 0 {
      NoChains();
      var empty: Entries := map[];
      assert empty.Keys == {};
    } else {
      ChainsOverRuns(cfg, window, wait, stale, steps, i - 1);
      RotationRefinesIdeal(cfg, window, wait, stale, steps, i - 1);
      var clock := if i == 1 then Time(steps[0]) else ClockAt(steps, i - 1);
      var s, full := StateAt(cfg, window, steps, i - 1), FullAt(cfg, window, steps, i - 1);
      assert Invariant(cfg, window, stale, s, full, clock);
      AllowedAt(cfg, window, wait, stale, steps, i - 1);
      ChainsStep(cfg, window, wait, stale, s, full, clock, steps[i - 1]);
    }
  }

  lemma NoChains()
    ensures Chains(START, {})
  {
  }

  /** After any run, each login has at most one refresh token that is not spent, counting a rotation
      that was cleared and has yet to issue as one; and every token carries the user and the roles
      that logged in. */
  lemma EachLoginHasOneLiveToken(cfg: Config, window: int, wait: nat, stale: nat, steps: seq<Step>)
    requires Possible(cfg, window, wait, stale, steps)
    requires window >= cfg.refreshTtl + wait + stale + VERIFY_LEEWAY_SECS
    ensures Chains(StateAt(cfg, window, steps, |steps|).world, IdealAt(cfg, steps, |steps|).spent)
  {
    hide Chains, Possible;
    ChainsOverRuns(cfg, window, wait, stale, steps, |steps|);
    RotationRefinesIdeal(cfg, window, wait, stale, steps, |steps|);
  }
}
