/** `RbacEngine::check` of `src/rbac/engine.rs`: deny before extra before role, behind the TTL
    cache.  A permission is its name.  A check looks into the cache, reads the stores and each role
    after the other and updates the cache, and other calls may run in between. */
module Engine {
  import opened Collections
  import opened PermissionCache
  import opened Wrappers

  datatype Result<T> = Ok(value: T) | Err

  /** A role, and what the registry answered when asked for it. */
  datatype RoleRead = RoleRead(name: string, definition: Option<set<string>>)

  /** What the stores answer for one subject, and the registry for each of its roles in turn. */
  datatype Lookups = Lookups(
    denied: Result<set<string>>, extra: Result<set<string>>, roles: Result<seq<RoleRead>>)

  /** The readings of the clock in one check: at the cache lookup, and three while caching. */
  datatype Clock = Clock(getAt: int, seenAt: int, setAt: int, sweptAt: int)

  // ---------- the decision ----------

  predicate RoleGrants(role: RoleRead, permission: string) {
    role.definition.Some? && permission in role.definition.value
  }

  predicate SomeRoleGrants(roles: seq<RoleRead>, permission: string) {
    exists i :: 0 <= i < |roles| && RoleGrants(roles[i], permission)
  }

  /** The stores' decision, or nothing when denied or extra permissions could not be read.  Roles
      that could not be read count as no roles. */
  function Authoritative(l: Lookups, permission: string): Option<bool> {
    if l.denied.Err? then None
    else if permission in l.denied.value then Some(false)
    else if l.extra.Err? then None
    else if permission in l.extra.value then Some(true)
    else Some(l.roles.Ok? && SomeRoleGrants(l.roles.value, permission))
  }

  function RolePermissions(roles: seq<RoleRead>): (s: set<string>)
    ensures forall p :: p in s <==> SomeRoleGrants(roles, p)
  {
    if roles == [] then {}
    else
      var last := |roles| - 1;
      RolePermissions(roles[..last]) + if roles[last].definition.Some? then roles[last].definition.value else {}
  }

  class RbacEngine {
    const cache: TtlPermissionCache

    constructor (cache: TtlPermissionCache)
      ensures this.cache == cache
    {
      this.cache := cache;
    }

    /** `meanwhile` is what the cache holds by the time the stores have been read. */
    method CheckCachedDenyExtra(subject: string, permission: string, l: Lookups, t: Clock, meanwhile: Cache)
      returns (r: Result<Option<bool>>)
      modifies cache
      ensures
        var hit := Lookup(old(cache.cache), (subject, permission), t.getAt);
        if hit.Some? then r == Ok(hit) && cache.cache == old(cache.cache)
        else if l.denied.Err? || (permission !in l.denied.value && l.extra.Err?) then r.Err? && cache.cache == meanwhile
        else if permission in l.denied.value || permission in l.extra.value then
          && r == Ok(Authoritative(l, permission))
          && cache.cache == Cached(meanwhile, cache.ttl, cache.maxEntries, (subject, permission),
                                   permission !in l.denied.value, t.setAt, t.sweptAt)
        else r == Ok(None) && cache.cache == meanwhile
    {
      hide Capped;
      var hit := cache.Get(subject, permission, t.getAt);
      if hit.Some? {
        return Ok(hit);
      }
      cache.cache := meanwhile;
      if l.denied.Err? {
        return Err;
      }
      if permission in l.denied.value {
        cache.Set(subject, permission, false, t.seenAt, t.setAt, t.sweptAt);
        return Ok(Some(false));
      }
      if l.extra.Err? {
        return Err;
      }
      if permission in l.extra.value {
        cache.Set(subject, permission, true, t.seenAt, t.setAt, t.sweptAt);
        return Ok(Some(true));
      }
      return Ok(None);
    }

    method Check(subject: string, permission: string, l: Lookups, t: Clock, meanwhile: Cache) returns (granted: bool)
      modifies cache
      ensures
        var key := (subject, permission);
        var hit := key in old(cache.cache) && t.getAt < old(cache.cache)[key].expiresAt;
        if hit then granted == old(cache.cache)[key].granted && cache.cache == old(cache.cache)
        else if l.denied.Err? || (permission !in l.denied.value && l.extra.Err?) then
          !granted && cache.cache == meanwhile
        else
          && (granted <==> && permission !in l.denied.value
                           && (permission in l.extra.value
                               || (l.roles.Ok?
                                   && exists role :: && role in l.roles.value && role.definition.Some?
                                                     && permission in role.definition.value)))
          && cache.cache == Capped(meanwhile[key := Entry(granted, t.setAt + cache.ttl)], cache.maxEntries, t.sweptAt)
      ensures granted == Answer(old(cache.cache), (subject, permission), l, t)
      ensures cache.cache == AfterCheck(old(cache.cache), meanwhile, cache.ttl, cache.maxEntries,
                                        (subject, permission), l, t)
    {
      hide Capped;
      var early := CheckCachedDenyExtra(subject, permission, l, t, meanwhile);
      if early.Err? {
        return false;
      }
      if early.value.Some? {
        return early.value.value;
      }
      if l.roles.Ok? {
        for i := 0 to |l.roles.value|
          invariant forall j :: 0 <= j < i ==> !RoleGrants(l.roles.value[j], permission)
          invariant cache.cache == meanwhile
        {
          var role := l.roles.value[i];
          if role.definition.Some? && permission in role.definition.value {
            assert RoleGrants(l.roles.value[i], permission) && role in l.roles.value;
            cache.Set(subject, permission, true, t.seenAt, t.setAt, t.sweptAt);
            return true;
          }
        }
      }
      cache.Set(subject, permission, false, t.seenAt, t.setAt, t.sweptAt);
      return false;
    }

    method EffectivePermissions(l: Lookups) returns (r: Result<set<string>>)
      ensures r.Ok? <==> l.roles.Ok? && l.extra.Ok? && l.denied.Ok?
      ensures r.Ok? ==> r.value == RolePermissions(l.roles.value) + l.extra.value - l.denied.value
    {
      if l.roles.Err? {
        return Err;
      }
      var perms: set<string> := {};
      for i := 0 to |l.roles.value|
        invariant perms == RolePermissions(l.roles.value[..i])
      {
        var role := l.roles.value[i];
        if role.definition.Some? {
          perms := perms + role.definition.value;
        }
        assert l.roles.value[..i + 1][..i] == l.roles.value[..i];
      }
      assert l.roles.value[..|l.roles.value|] == l.roles.value;
      if l.extra.Err? {
        return Err;
      }
      perms := perms + l.extra.value;
      if l.denied.Err? {
        return Err;
      }
      perms := set p | p in perms && p !in l.denied.value;
      return Ok(perms);
    }
  }

  ghost function Cached(cache: Cache, ttl: nat, maxEntries: nat, key: Key, granted: bool, setAt: int,
                        sweptAt: int): Cache
  {
    Capped(cache[key := Entry(granted, setAt + ttl)], maxEntries, sweptAt)
  }

  function Answer(cache: Cache, key: Key, l: Lookups, t: Clock): bool {
    if Lookup(cache, key, t.getAt).Some? then Lookup(cache, key, t.getAt).value
    else Authoritative(l, key.1) == Some(true)
  }

  ghost function AfterCheck(before: Cache, meanwhile: Cache, ttl: nat, maxEntries: nat, key: Key, l: Lookups,
                            t: Clock): Cache
  {
    if Lookup(before, key, t.getAt).Some? then before
    else if Authoritative(l, key.1).None? then meanwhile
    else Cached(meanwhile, ttl, maxEntries, key, Authoritative(l, key.1).value, t.setAt, t.sweptAt)
  }

  // ---------- the stores ----------

  datatype Store = Store(
    denied: map<string, set<string>>, extra: map<string, set<string>>,
    roles: map<string, seq<string>>, registry: map<string, set<string>>)

  function Denied(st: Store, subject: string): set<string> {
    if subject in st.denied then st.denied[subject] else {}
  }

  function Extra(st: Store, subject: string): set<string> {
    if subject in st.extra then st.extra[subject] else {}
  }

  function Roles(st: Store, subject: string): seq<string> {
    if subject in st.roles then st.roles[subject] else []
  }

  function Definition(st: Store, role: string): RoleRead {
    RoleRead(role, if role in st.registry then Some(st.registry[role]) else None)
  }

  function RolesDefined(st: Store, subject: string): seq<RoleRead> {
    seq(|Roles(st, subject)|, i requires 0 <= i < |Roles(st, subject)| => Definition(st, Roles(st, subject)[i]))
  }

  function RolePermissionsOf(st: Store, subject: string): set<string> { RolePermissions(RolesDefined(st, subject)) }

  /** Which lookups fail during a check. */
  datatype Failing = Failing(denied: bool, extra: bool, roles: bool)

  /** What a check looks up when the stores change while it reads them. */
  function LookupsAcross(d: Store, e: Store, roles: seq<RoleRead>, subject: string, f: Failing): Lookups {
    Lookups(if f.denied then Err else Ok(Denied(d, subject)), if f.extra then Err else Ok(Extra(e, subject)),
            if f.roles then Err else Ok(roles))
  }

  /** Deny overrides extra overrides roles, each as it was when it was read. */
  predicate DecisionAcross(d: Store, e: Store, roles: seq<RoleRead>, subject: string, permission: string) {
    && permission !in Denied(d, subject)
    && (permission in Extra(e, subject) || permission in RolePermissions(roles))
  }

  predicate Decision(st: Store, subject: string, permission: string) {
    DecisionAcross(st, st, RolesDefined(st, subject), subject, permission)
  }

  function Effective(st: Store, subject: string): set<string> {
    RolePermissionsOf(st, subject) + Extra(st, subject) - Denied(st, subject)
  }

  lemma DecisionIsEffective(st: Store, subject: string, permission: string)
    ensures Decision(st, subject, permission) <==> permission in Effective(st, subject)
  {
  }

  /** The answer that is cached is wrong exactly when the lookup of roles failed, nothing before it
      did, and only a role grants the permission. */
  lemma WrongExactly(d: Store, e: Store, roles: seq<RoleRead>, subject: string, permission: string, f: Failing)
    ensures var a := Authoritative(LookupsAcross(d, e, roles, subject, f), permission);
            a.Some? && a.value != DecisionAcross(d, e, roles, subject, permission)
            <==> && f.roles && !f.denied && !f.extra
                 && DecisionAcross(d, e, roles, subject, permission) && permission !in Extra(e, subject)
    ensures Authoritative(LookupsAcross(d, e, roles, subject, f), permission) == Some(true)
            ==> DecisionAcross(d, e, roles, subject, permission)
    ensures Authoritative(LookupsAcross(d, e, roles, subject, f), permission).None?
       <==> f.denied || (permission !in Denied(d, subject) && f.extra)
  {
  }

  // ---------- runs of interleaved checks ----------

  type CallId = nat

  /** One atomic step of one of the calls at work: the list of roles is one lookup, and each role
      of it that is looked up in the registry is another. */
  datatype Step =
    | Begin(id: CallId, subject: string, permission: string, getAt: int)
    | ReadDenied(id: CallId, fails: bool, at: int)
    | ReadExtra(id: CallId, fails: bool, at: int)
    | ReadRoles(id: CallId, fails: bool, at: int)
    | ReadRole(id: CallId, at: int)
    | Update(id: CallId, seenAt: int, setAt: int, sweptAt: int)
    | Write(store: Store, at: int)
    | InvalidateSubject(subject: string, at: int)
    | InvalidateAll(at: int)

  /** The steps at which a check began, at which it read each store, and at which it looked up the
      first roles of the list; a store that it did not need counts as read with the one before. */
  datatype Reads = Reads(begun: nat, denied: nat, extra: nat, roles: nat, walked: seq<nat>, rolesFailed: bool)

  /** The last step at which something was read. */
  function LastRead(r: Reads): nat { if r.walked == [] then r.roles else r.walked[|r.walked| - 1] }

  datatype Origin = Hit | Stores(read: Reads) | Failure

  /** Where a check stands. */
  datatype Call =
    | Missed(key: Key, begun: nat)
    | NotDenied(key: Key, begun: nat, denied: nat)
    | NotExtra(key: Key, begun: nat, denied: nat, extra: nat)
    | Walking(key: Key, begun: nat, denied: nat, extra: nat, listed: nat, names: seq<string>, walked: seq<nat>)
    | Deciding(key: Key, begun: nat, granted: bool, read: Reads)
    | Answered(key: Key, begun: nat, answer: bool, origin: Origin)

  datatype State = State(store: Store, cache: Cache, calls: map<CallId, Call>)

  datatype System = System(ttl: nat, maxEntries: nat, initial: Store)

  predicate Enabled(s: State, step: Step) {
    match step
    case Begin(id, _, _, _) => id !in s.calls
    case ReadDenied(id, _, _) => id in s.calls && s.calls[id].Missed?
    case ReadExtra(id, _, _) => id in s.calls && s.calls[id].NotDenied?
    case ReadRoles(id, _, _) => id in s.calls && s.calls[id].NotExtra?
    case ReadRole(id, _) => id in s.calls && s.calls[id].Walking? && |s.calls[id].walked| < |s.calls[id].names|
    case Update(id, _, _, _) => id in s.calls && s.calls[id].Deciding?
    case _ => true
  }

  predicate OfCheck(step: Step) {
    || step.Begin? || step.ReadDenied? || step.ReadExtra? || step.ReadRoles? || step.ReadRole?
    || step.Update?
  }

  /** Where step number `i` of a check takes the call. */
  function CallAfter(s: State, i: nat, step: Step): Call
    requires Enabled(s, step) && OfCheck(step)
  {
    match step
    case Begin(id, subject, permission, getAt) =>
      var key := (subject, permission);
      var hit := Lookup(s.cache, key, getAt);
      if hit.Some? then Answered(key, i, hit.value, Hit) else Missed(key, i)
    case ReadDenied(id, fails, _) =>
      var c := s.calls[id];
      if fails then Answered(c.key, c.begun, false, Failure)
      else if c.key.1 in Denied(s.store, c.key.0) then
        Deciding(c.key, c.begun, false, Reads(c.begun, i, i, i, [], false))
      else NotDenied(c.key, c.begun, i)
    case ReadExtra(id, fails, _) =>
      var c := s.calls[id];
      if fails then Answered(c.key, c.begun, false, Failure)
      else if c.key.1 in Extra(s.store, c.key.0) then
        Deciding(c.key, c.begun, true, Reads(c.begun, c.denied, i, i, [], false))
      else NotExtra(c.key, c.begun, c.denied, i)
    case ReadRoles(id, fails, _) =>
      var c := s.calls[id];
      var names := Roles(s.store, c.key.0);
      if fails || names == [] then Deciding(c.key, c.begun, false, Reads(c.begun, c.denied, c.extra, i, [], fails))
      else Walking(c.key, c.begun, c.denied, c.extra, i, names, [])
    case ReadRole(id, _) =>
      var c := s.calls[id];
      var walked := c.walked + [i];
      var granted := RoleGrants(Definition(s.store, c.names[|c.walked|]), c.key.1);
      if granted || |walked| == |c.names| then
        Deciding(c.key, c.begun, granted, Reads(c.begun, c.denied, c.extra, c.listed, walked, false))
      else c.(walked := walked)
    case Update(id, _, _, _) =>
      var c := s.calls[id];
      Answered(c.key, c.begun, c.granted, Stores(c.read))
  }

  /** A step that is not enabled does nothing, so that every sequence of steps is a run. */
  ghost function Next(sys: System, s: State, i: nat, step: Step): State {
    if !Enabled(s, step) then s
    else
      match step
      case Write(store, _) => s.(store := store)
      case InvalidateSubject(subject, _) => s.(cache := WithoutSubject(s.cache, subject))
      case InvalidateAll(_) => s.(cache := map[])
      case Update(id, seenAt, setAt, sweptAt) =>
        var c := s.calls[id];
        State(s.store, Cached(s.cache, sys.ttl, sys.maxEntries, c.key, c.granted, setAt, sweptAt),
              s.calls[id := CallAfter(s, i, step)])
      case _ => s.(calls := s.calls[step.id := CallAfter(s, i, step)])
  }

  /** The state after the first `i` steps, from an empty cache. */
  ghost function StateAt(sys: System, steps: seq<Step>, i: nat): State
    requires i <= |steps|
  {
    if i == 0 then State(sys.initial, map[], map[])
    else Next(sys, StateAt(sys, steps, i - 1), i - 1, steps[i - 1])
  }

  ghost function StoreAt(sys: System, steps: seq<Step>, i: nat): Store
    requires i <= |steps|
  {
    StateAt(sys, steps, i).store
  }

  predicate Invalidates(step: Step, subject: string) {
    step.InvalidateAll? || (step.InvalidateSubject? && step.subject == subject)
  }

  ghost predicate Undisturbed(steps: seq<Step>, from: nat, upTo: nat, subject: string) {
    upTo <= |steps| && forall v :: from <= v < upTo ==> !Invalidates(steps[v], subject)
  }

  /** Roles are looked up one after the other, after the list and before step `i`. */
  ghost predicate Climbs(listed: nat, walked: seq<nat>, i: nat) {
    && (forall k :: 0 <= k < |walked| ==> listed < walked[k] < i)
    && (forall k, l :: 0 <= k < l < |walked| ==> walked[k] < walked[l])
  }

  ghost predicate Orderly(r: Reads, i: nat) {
    r.begun < r.denied <= r.extra <= r.roles < i && Climbs(r.roles, r.walked, i)
  }

  /** The roles of the list in front, each as it was when it was looked up. */
  ghost function RolesWalked(sys: System, steps: seq<Step>, subject: string, r: Reads): seq<RoleRead>
    requires Orderly(r, |steps|) && |r.walked| <= |Roles(StoreAt(sys, steps, r.roles), subject)|
  {
    var names := Roles(StoreAt(sys, steps, r.roles), subject);
    seq(|r.walked|, k requires 0 <= k < |r.walked| => Definition(StoreAt(sys, steps, r.walked[k]), names[k]))
  }

  /** The roles as they were read; those that could not be read, as they then were. */
  ghost function RolesAcross(sys: System, steps: seq<Step>, subject: string, r: Reads): seq<RoleRead>
    requires Orderly(r, |steps|) && |r.walked| <= |Roles(StoreAt(sys, steps, r.roles), subject)|
  {
    if r.rolesFailed then RolesDefined(StoreAt(sys, steps, r.roles), subject)
    else RolesWalked(sys, steps, subject, r)
  }

  /** A check of `key`, begun at one of the first `i` steps, that decided this from what it read:
      a role that granted, or else all roles of the list. */
  ghost predicate Decided(sys: System, steps: seq<Step>, i: nat, key: Key, granted: bool, r: Reads) {
    && i <= |steps| && Orderly(r, i)
    && steps[r.begun].Begin? && (steps[r.begun].subject, steps[r.begun].permission) == key
    && (r.rolesFailed ==> steps[r.roles].ReadRoles? && steps[r.roles].fails)
    && |r.walked| <= |Roles(StoreAt(sys, steps, r.roles), key.0)|
    && Authoritative(LookupsAcross(StoreAt(sys, steps, r.denied), StoreAt(sys, steps, r.extra),
                                   RolesAcross(sys, steps, key.0, r), key.0, Failing(false, false, r.rolesFailed)),
                     key.1)
       == Some(granted)
    && (granted || r.rolesFailed || key.1 in Denied(StoreAt(sys, steps, r.denied), key.0)
        || |r.walked| == |Roles(StoreAt(sys, steps, r.roles), key.0)|)
  }

  /** The cached entry was put there at step `j` by a check that had read `r`, and its subject has
      not been invalidated since. */
  ghost predicate Source(sys: System, steps: seq<Step>, i: nat, key: Key, entry: Entry, j: nat, r: Reads) {
    && j < i <= |steps| && steps[j].Update? && Enabled(StateAt(sys, steps, j), steps[j])
    && StateAt(sys, steps, j).calls[steps[j].id] == Deciding(key, r.begun, entry.granted, r)
    && Undisturbed(steps, j, i, key.0) && entry.expiresAt == steps[j].setAt + sys.ttl
  }

  ghost predicate Sourced(sys: System, steps: seq<Step>, i: nat, key: Key, entry: Entry) {
    exists j: nat, r: Reads :: Source(sys, steps, i, key, entry, j, r)
  }

  ghost predicate BegunRight(steps: seq<Step>, i: nat, c: Call) {
    c.begun < i <= |steps| && steps[c.begun].Begin? && (steps[c.begun].subject, steps[c.begun].permission) == c.key
  }

  ghost predicate CallRight(sys: System, steps: seq<Step>, i: nat, c: Call) {
    && BegunRight(steps, i, c)
    && match c
       case Missed(_, _) => true
       case NotDenied(key, begun, denied) =>
         begun < denied < i && key.1 !in Denied(StoreAt(sys, steps, denied), key.0)
       case NotExtra(key, begun, denied, extra) =>
         && begun < denied < extra < i && key.1 !in Denied(StoreAt(sys, steps, denied), key.0)
         && key.1 !in Extra(StoreAt(sys, steps, extra), key.0)
       case Walking(key, begun, denied, extra, listed, names, walked) =>
         && begun < denied < extra < listed < i && key.1 !in Denied(StoreAt(sys, steps, denied), key.0)
         && key.1 !in Extra(StoreAt(sys, steps, extra), key.0)
         && names == Roles(StoreAt(sys, steps, listed), key.0) && |walked| < |names| && Climbs(listed, walked, i)
         && forall k :: 0 <= k < |walked|
                        ==> !RoleGrants(Definition(StoreAt(sys, steps, walked[k]), names[k]), key.1)
       case Deciding(key, begun, granted, r) => r.begun == begun && Decided(sys, steps, i, key, granted, r)
       case Answered(key, begun, answer, origin) =>
         match origin
         case Hit =>
           exists entry :: && Sourced(sys, steps, begun, key, entry) && entry.granted == answer
                           && steps[begun].getAt < entry.expiresAt
         case Stores(r) => r.begun == begun && Decided(sys, steps, i, key, answer, r)
         case Failure => !answer
  }

  lemma SourceLasts(sys: System, steps: seq<Step>, i: nat, key: Key, entry: Entry)
    requires i < |steps| && Sourced(sys, steps, i, key, entry) && !Invalidates(steps[i], key.0)
    ensures Sourced(sys, steps, i + 1, key, entry)
  {
    hide StateAt, Enabled;
    var j: nat, r: Reads :| Source(sys, steps, i, key, entry, j, r);
    assert Source(sys, steps, i + 1, key, entry, j, r);
  }

  lemma KeptWhenCapped(cache: Cache, key: Key, entry: Entry, maxEntries: nat, now: int, k: Key)
    requires k in Capped(cache[key := entry], maxEntries, now)
    ensures if k == key then Capped(cache[key := entry], maxEntries, now)[k] == entry
            else k in cache && Capped(cache[key := entry], maxEntries, now)[k] == cache[k]
  {
    hide Capped;
    CapIsMet(cache[key := entry], maxEntries, now);
  }

  /** What a step leaves of the cache, and what it adds. */
  lemma CacheStep(sys: System, s: State, i: nat, step: Step, key: Key)
    requires key in Next(sys, s, i, step).cache
    ensures var entry := Next(sys, s, i, step).cache[key];
            || (key in s.cache && s.cache[key] == entry && !Invalidates(step, key.0))
            || (&& Enabled(s, step) && step.Update? && s.calls[step.id].key == key
                && entry == Entry(s.calls[step.id].granted, step.setAt + sys.ttl))
  {
    hide Capped;
    if Enabled(s, step) && step.Update? {
      var c := s.calls[step.id];
      KeptWhenCapped(s.cache, c.key, Entry(c.granted, step.setAt + sys.ttl), sys.maxEntries, step.sweptAt, key);
    }
  }

  /** Every cached decision comes from a check that read the stores, and no invalidation of its
      subject has come since it was cached. */
  lemma {:induction false} CacheIsSourced(sys: System, steps: seq<Step>, i: nat, key: Key)
    requires i <= |steps| && key in StateAt(sys, steps, i).cache
    ensures Sourced(sys, steps, i, key, StateAt(sys, steps, i).cache[key])
    decreases i, 0
  {
    hide Next, Sourced;
    assert i > 0;
    var s, step := StateAt(sys, steps, i - 1), steps[i - 1];
    var entry := StateAt(sys, steps, i).cache[key];
    CacheStep(sys, s, i - 1, step, key);
    if key in s.cache && s.cache[key] == entry && !Invalidates(step, key.0) {
      CacheIsSourced(sys, steps, i - 1, key);
      SourceLasts(sys, steps, i - 1, key, entry);
    } else {
      CallIsRight(sys, steps, i - 1, step.id);
      NewSource(sys, steps, i - 1, key, entry);
    }
  }

  lemma NewSource(sys: System, steps: seq<Step>, i: nat, key: Key, entry: Entry)
    requires i < |steps| && steps[i].Update? && Enabled(StateAt(sys, steps, i), steps[i])
    requires var c := StateAt(sys, steps, i).calls[steps[i].id];
             CallRight(sys, steps, i, c) && c.key == key && entry == Entry(c.granted, steps[i].setAt + sys.ttl)
    ensures Sourced(sys, steps, i + 1, key, entry)
  {
    hide StateAt, Decided;
    var c := StateAt(sys, steps, i).calls[steps[i].id];
    assert Source(sys, steps, i + 1, key, entry, i, c.read);
  }

  lemma CallRightLater(sys: System, steps: seq<Step>, i: nat, c: Call)
    requires i < |steps| && CallRight(sys, steps, i, c)
    ensures CallRight(sys, steps, i + 1, c)
  {
    hide StateAt, Sourced, Authoritative, LookupsAcross;
  }

  /** Each call stands where it stands because of what it read, whatever ran in between. */
  lemma {:induction false} CallIsRight(sys: System, steps: seq<Step>, i: nat, id: CallId)
    requires i <= |steps| && id in StateAt(sys, steps, i).calls
    ensures CallRight(sys, steps, i, StateAt(sys, steps, i).calls[id])
    decreases i, 1
  {
    hide CallRight, CallAfter;
    assert i > 0;
    var s, step := StateAt(sys, steps, i - 1), steps[i - 1];
    CallStep(sys, s, i - 1, step, id);
    if id in s.calls {
      CallIsRight(sys, steps, i - 1, id);
    }
    if id in s.calls && s.calls[id] == StateAt(sys, steps, i).calls[id] {
      CallRightLater(sys, steps, i - 1, s.calls[id]);
    } else {
      if step.Begin? && (step.subject, step.permission) in s.cache {
        CacheIsSourced(sys, steps, i - 1, (step.subject, step.permission));
      }
      NewCallRight(sys, steps, i - 1, id);
    }
  }

  lemma CallStep(sys: System, s: State, i: nat, step: Step, id: CallId)
    requires id in Next(sys, s, i, step).calls
    ensures || (id in s.calls && s.calls[id] == Next(sys, s, i, step).calls[id])
            || (Enabled(s, step) && OfCheck(step) && step.id == id
                && Next(sys, s, i, step).calls[id] == CallAfter(s, i, step))
  {
    hide CallAfter, Cached;
  }

  lemma NewCallRight(sys: System, steps: seq<Step>, i: nat, id: CallId)
    requires i < |steps| && OfCheck(steps[i]) && steps[i].id == id && Enabled(StateAt(sys, steps, i), steps[i])
    requires id in StateAt(sys, steps, i).calls ==> CallRight(sys, steps, i, StateAt(sys, steps, i).calls[id])
    requires var s, step := StateAt(sys, steps, i), steps[i];
             step.Begin? && (step.subject, step.permission) in s.cache
             ==> Sourced(sys, steps, i, (step.subject, step.permission), s.cache[(step.subject, step.permission)])
    ensures CallRight(sys, steps, i + 1, CallAfter(StateAt(sys, steps, i), i, steps[i]))
  {
    hide StateAt, Sourced, Definition;
    if steps[i].ReadRole? {
      hide CallRight, CallAfter, Decided;
      RoleRight(sys, steps, i, StateAt(sys, steps, i).calls[id]);
    }
  }

  /** One more role looked up: it grants, or was the last of the list, or the call walks on. */
  lemma RoleRight(sys: System, steps: seq<Step>, i: nat, c: Call)
    requires i < |steps| && steps[i].ReadRole? && Enabled(StateAt(sys, steps, i), steps[i])
    requires c == StateAt(sys, steps, i).calls[steps[i].id] && CallRight(sys, steps, i, c)
    ensures CallRight(sys, steps, i + 1, CallAfter(StateAt(sys, steps, i), i, steps[i]))
  {
    hide StateAt, Sourced, Definition, Authoritative, LookupsAcross;
    var walked := c.walked + [i];
    var role := Definition(StoreAt(sys, steps, i), c.names[|c.walked|]);
    var r := Reads(c.begun, c.denied, c.extra, c.listed, walked, false);
    assert Orderly(r, i + 1);
    var roles := RolesAcross(sys, steps, c.key.0, r);
    assert forall k :: 0 <= k < |c.walked| ==> !RoleGrants(roles[k], c.key.1);
    assert roles[|c.walked|] == role;
    RolesDecide(StoreAt(sys, steps, c.denied), StoreAt(sys, steps, c.extra), roles, c.key);
  }

  /** When neither denials nor extras decide, the roles do, and the last of them if none before it
      grants. */
  lemma RolesDecide(d: Store, e: Store, roles: seq<RoleRead>, key: Key)
    requires key.1 !in Denied(d, key.0) && key.1 !in Extra(e, key.0)
    requires roles != [] && forall k :: 0 <= k < |roles| - 1 ==> !RoleGrants(roles[k], key.1)
    ensures Authoritative(LookupsAcross(d, e, roles, key.0, Failing(false, false, false)), key.1)
         == Some(RoleGrants(roles[|roles| - 1], key.1))
  {
  }

  // ---------- a call of a run is a call of the method ----------

  /** What the call had read when it decided. */
  ghost function LookupsRead(sys: System, steps: seq<Step>, key: Key, r: Reads): Lookups
    requires Orderly(r, |steps|) && |r.walked| <= |Roles(StoreAt(sys, steps, r.roles), key.0)|
  {
    LookupsAcross(StoreAt(sys, steps, r.denied), StoreAt(sys, steps, r.extra), RolesAcross(sys, steps, key.0, r), key.0,
                  Failing(false, false, r.rolesFailed))
  }

  /** A call that hits the cache answers at once as the method does, and leaves the cache alone. */
  lemma HitIsCheck(sys: System, s: State, i: nat, step: Step, l: Lookups, t: Clock, meanwhile: Cache)
    requires step.Begin? && Enabled(s, step) && t.getAt == step.getAt
    ensures var key, next := (step.subject, step.permission), Next(sys, s, i, step);
            && next.cache == s.cache
            && if Lookup(s.cache, key, step.getAt).Some? then
                 && next.calls[step.id] == Answered(key, i, Answer(s.cache, key, l, t), Hit)
                 && next.cache == AfterCheck(s.cache, meanwhile, sys.ttl, sys.maxEntries, key, l, t)
               else next.calls[step.id] == Missed(key, i)
  {
  }

  /** Every call that goes on to the stores has missed the cache. */
  lemma {:induction false} MissedAtStart(sys: System, steps: seq<Step>, i: nat, id: CallId)
    requires i <= |steps| && id in StateAt(sys, steps, i).calls
    requires var c := StateAt(sys, steps, i).calls[id]; !(c.Answered? && c.origin.Hit?)
    ensures var c := StateAt(sys, steps, i).calls[id];
            && c.begun < i && steps[c.begun].Begin?
            && Lookup(StateAt(sys, steps, c.begun).cache, c.key, steps[c.begun].getAt).None?
    decreases i
  {
    hide Cached;
    assert i > 0;
    var s, step := StateAt(sys, steps, i - 1), steps[i - 1];
    CallStep(sys, s, i - 1, step, id);
    if id in s.calls {
      OnlyBeginHits(s, i - 1, step);
      MissedAtStart(sys, steps, i - 1, id);
    }
  }

  lemma OnlyBeginHits(s: State, i: nat, step: Step)
    ensures Enabled(s, step) && OfCheck(step) && !step.Begin?
            ==> && CallAfter(s, i, step).begun == s.calls[step.id].begun
                && CallAfter(s, i, step).key == s.calls[step.id].key
                && !(CallAfter(s, i, step).Answered? && CallAfter(s, i, step).origin.Hit?)
                && !s.calls[step.id].Answered?
    ensures Enabled(s, step) && step.Begin? ==> step.id !in s.calls
  {
  }

  /** A call that decides ends as the method does: from the cache it missed in, from what it read,
      and on the cache that it finds when it comes to update it. */
  lemma UpdateIsCheck(sys: System, steps: seq<Step>, j: nat, t: Clock)
    requires j < |steps| && steps[j].Update? && Enabled(StateAt(sys, steps, j), steps[j])
    requires var begun := StateAt(sys, steps, j).calls[steps[j].id].begun;
             begun < j && steps[begun].Begin?
             ==> t == Clock(steps[begun].getAt, steps[j].seenAt, steps[j].setAt, steps[j].sweptAt)
    ensures var s, next := StateAt(sys, steps, j), StateAt(sys, steps, j + 1);
            var c := s.calls[steps[j].id];
            && Decided(sys, steps, j, c.key, c.granted, c.read) && c.begun < j
            && var before, l := StateAt(sys, steps, c.begun).cache, LookupsRead(sys, steps, c.key, c.read);
            && next.calls[steps[j].id] == Answered(c.key, c.begun, Answer(before, c.key, l, t), Stores(c.read))
            && next.cache == AfterCheck(before, s.cache, sys.ttl, sys.maxEntries, c.key, l, t)
  {
    hide StateAt, Cached, LookupsAcross, Authoritative, Lookup;
    var s := StateAt(sys, steps, j);
    var c := s.calls[steps[j].id];
    CallIsRight(sys, steps, j, steps[j].id);
    MissedAtStart(sys, steps, j, steps[j].id);
    UpdateStep(sys, steps, j);
  }

  lemma UpdateStep(sys: System, steps: seq<Step>, j: nat)
    requires j < |steps| && steps[j].Update? && Enabled(StateAt(sys, steps, j), steps[j])
    ensures var s := StateAt(sys, steps, j);
            var c, step := s.calls[steps[j].id], steps[j];
            && StateAt(sys, steps, j + 1).calls[step.id] == Answered(c.key, c.begun, c.granted, Stores(c.read))
            && StateAt(sys, steps, j + 1).cache
               == Cached(s.cache, sys.ttl, sys.maxEntries, c.key, c.granted, step.setAt, step.sweptAt)
  {
    hide Cached;
  }

  /** A call whose lookup of denials fails, or of extras after that of denials, ends as the method
      does: a denial, and nothing cached. */
  lemma FailureIsCheck(sys: System, steps: seq<Step>, j: nat, l: Lookups, t: Clock)
    requires j < |steps| && Enabled(StateAt(sys, steps, j), steps[j])
    requires (steps[j].ReadDenied? || steps[j].ReadExtra?) && steps[j].fails
    requires var c := StateAt(sys, steps, j).calls[steps[j].id];
             && (c.begun < j && steps[c.begun].Begin? ==> t.getAt == steps[c.begun].getAt)
             && (if c.Missed? then l.denied.Err?
                 else l.extra.Err? && c.denied < j && l.denied == Ok(Denied(StoreAt(sys, steps, c.denied), c.key.0)))
    ensures var s, next := StateAt(sys, steps, j), StateAt(sys, steps, j + 1);
            var c := s.calls[steps[j].id];
            && c.begun < j
            && var before := StateAt(sys, steps, c.begun).cache;
            && next.calls[steps[j].id] == Answered(c.key, c.begun, Answer(before, c.key, l, t), Failure)
            && next.cache == AfterCheck(before, s.cache, sys.ttl, sys.maxEntries, c.key, l, t)
            && !Answer(before, c.key, l, t)
  {
    hide StateAt, Cached, Lookup;
    CallIsRight(sys, steps, j, steps[j].id);
    MissedAtStart(sys, steps, j, steps[j].id);
    FailureStep(sys, steps, j);
  }

  lemma FailureStep(sys: System, steps: seq<Step>, j: nat)
    requires j < |steps| && Enabled(StateAt(sys, steps, j), steps[j])
    requires (steps[j].ReadDenied? || steps[j].ReadExtra?) && steps[j].fails
    ensures var s := StateAt(sys, steps, j);
            var c := s.calls[steps[j].id];
            && StateAt(sys, steps, j + 1).calls[steps[j].id] == Answered(c.key, c.begun, false, Failure)
            && StateAt(sys, steps, j + 1).cache == s.cache
  {
  }

  // ---------- staleness ----------

  function StartOf(step: Step): int {
    if step.Begin? then step.getAt else if step.Update? then step.seenAt else step.at
  }

  function EndOf(step: Step): int { if step.Update? then step.sweptAt else StartOf(step) }

  ghost predicate InOrder(steps: seq<Step>) {
    && (forall i :: 0 <= i < |steps| && steps[i].Update? ==> steps[i].seenAt <= steps[i].setAt <= steps[i].sweptAt)
    && (forall i, j :: 0 <= i < j < |steps| ==> EndOf(steps[i]) <= StartOf(steps[j]))
  }

  /** At step `j` a check that began at step `b` updates the cache. */
  ghost predicate Spans(sys: System, steps: seq<Step>, b: nat, j: nat) {
    && b < j < |steps| && steps[b].Begin? && steps[j].Update? && Enabled(StateAt(sys, steps, j), steps[j])
    && StateAt(sys, steps, j).calls[steps[j].id].begun == b
  }

  /** No check takes longer than this from its cache lookup to its cache update. */
  ghost predicate NoLongerThan(sys: System, steps: seq<Step>, length: nat) {
    forall b: nat, j: nat :: Spans(sys, steps, b, j) ==> steps[j].setAt - steps[b].getAt <= length
  }

  /** The answer was decided from `r`, by the check itself or by an earlier one that was over when
      this one began, and that began less than a TTL and one check before it. */
  ghost predicate Explained(sys: System, steps: seq<Step>, i: nat, c: Call, r: Reads, length: nat)
    requires c.Answered? && BegunRight(steps, i, c)
  {
    && Decided(sys, steps, i, c.key, c.answer, r)
    && (r.begun == c.begun
        || (LastRead(r) < c.begun
            && steps[c.begun].getAt - sys.ttl - length < steps[r.begun].getAt <= steps[c.begun].getAt))
  }

  lemma DecidedLater(sys: System, steps: seq<Step>, j: nat, i: nat, key: Key, granted: bool, r: Reads)
    requires Decided(sys, steps, j, key, granted, r) && j <= i <= |steps|
    ensures Decided(sys, steps, i, key, granted, r)
  {
    hide StateAt, Authoritative, LookupsAcross;
  }

  /** The check behind a cache hit. */
  lemma HitComesFrom(sys: System, steps: seq<Step>, i: nat, c: Call) returns (j: nat, r: Reads)
    requires CallRight(sys, steps, i, c) && c.Answered? && c.origin.Hit?
    ensures j < c.begun && Decided(sys, steps, j, c.key, c.answer, r) && Spans(sys, steps, r.begun, j)
    ensures StateAt(sys, steps, j).calls[steps[j].id].key == c.key
    ensures Undisturbed(steps, j, c.begun, c.key.0) && steps[c.begun].getAt < steps[j].setAt + sys.ttl
  {
    hide StateAt, Enabled, Authoritative, LookupsAcross;
    var entry :| && Sourced(sys, steps, c.begun, c.key, entry) && entry.granted == c.answer
                 && steps[c.begun].getAt < entry.expiresAt;
    j, r :| Source(sys, steps, c.begun, c.key, entry, j, r);
    CallAtUpdate(sys, steps, j);
  }

  lemma CallAtUpdate(sys: System, steps: seq<Step>, j: nat)
    requires j < |steps| && steps[j].Update? && Enabled(StateAt(sys, steps, j), steps[j])
    ensures steps[j].id in StateAt(sys, steps, j).calls
    ensures CallRight(sys, steps, j, StateAt(sys, steps, j).calls[steps[j].id])
  {
    hide StateAt, CallRight;
    CallIsRight(sys, steps, j, steps[j].id);
  }

  /** Staleness is bounded: over any run of interleaved checks, writes and invalidations, an answer
      was decided from stores all read after the start of a check that began less than the TTL,
      and the time a check takes, before this one. */
  lemma AnswersAreRecent(sys: System, steps: seq<Step>, i: nat, id: CallId, length: nat)
    requires InOrder(steps) && NoLongerThan(sys, steps, length) && i <= |steps| && id in StateAt(sys, steps, i).calls
    ensures var c := StateAt(sys, steps, i).calls[id];
            && BegunRight(steps, i, c)
            && (c.Answered? && !c.origin.Failure? ==> exists r :: Explained(sys, steps, i, c, r, length))
            && (c.Answered? && c.origin.Failure? ==> !c.answer)
  {
    hide StateAt, Enabled, Authoritative, LookupsAcross, Decided;
    CallIsRight(sys, steps, i, id);
    var c := StateAt(sys, steps, i).calls[id];
    if c.Answered? && c.origin.Hit? {
      var j, r := HitComesFrom(sys, steps, i, c);
      DecidedEarlier(sys, steps, j, c.key, c.answer, r);
      DecidedLater(sys, steps, j, i, c.key, c.answer, r);
      assert EndOf(steps[r.begun]) <= StartOf(steps[c.begun]);
      assert Explained(sys, steps, i, c, r, length);
    } else if c.Answered? && c.origin.Stores? {
      assert Explained(sys, steps, i, c, c.origin.read, length);
    }
  }

  lemma DecidedEarlier(sys: System, steps: seq<Step>, i: nat, key: Key, granted: bool, r: Reads)
    requires Decided(sys, steps, i, key, granted, r)
    ensures Orderly(r, i) && r.roles <= LastRead(r) < i <= |steps|
    ensures |r.walked| <= |Roles(StoreAt(sys, steps, r.roles), key.0)|
    ensures steps[r.begun].Begin? && (steps[r.begun].subject, steps[r.begun].permission) == key
    ensures r.rolesFailed ==> steps[r.roles].ReadRoles? && steps[r.roles].fails
  {
  }

  /** A decision is that of the stores and roles as they were read: a grant was a grant, and it is
      wrong exactly when the lookup of roles failed and only a role granted the permission.  A
      check that decides by roles and does not grant has read every role of the list. */
  lemma DecidedMeans(sys: System, steps: seq<Step>, i: nat, key: Key, granted: bool, r: Reads)
    requires Decided(sys, steps, i, key, granted, r)
    ensures var d, e, roles :=
              StoreAt(sys, steps, r.denied), StoreAt(sys, steps, r.extra), RolesAcross(sys, steps, key.0, r);
            && (granted ==> DecisionAcross(d, e, roles, key.0, key.1))
            && (granted != DecisionAcross(d, e, roles, key.0, key.1)
                <==> r.rolesFailed && DecisionAcross(d, e, roles, key.0, key.1) && key.1 !in Extra(e, key.0))
            && (!granted && key.1 !in Denied(d, key.0) ==> |roles| == |Roles(StoreAt(sys, steps, r.roles), key.0)|)
  {
    hide StateAt, Authoritative, DecisionAcross, LookupsAcross;
    WrongExactly(StoreAt(sys, steps, r.denied), StoreAt(sys, steps, r.extra), RolesAcross(sys, steps, key.0, r),
                 key.0, key.1, Failing(false, false, r.rolesFailed));
  }

  // ---------- when the cache cannot be noticed ----------

  /** All that the stores say about a subject: also which roles it has and what each of them is, for
      a permission that moves from one role to another can be missed by a check on its way. */
  datatype View = View(denied: set<string>, extra: set<string>, roles: set<RoleRead>)

  function ViewOf(st: Store, subject: string): View {
    View(Denied(st, subject), Extra(st, subject), Elements(RolesDefined(st, subject)))
  }

  ghost predicate Touches(sys: System, steps: seq<Step>, w: nat, subject: string) {
    w < |steps| && ViewOf(StoreAt(sys, steps, w), subject) != ViewOf(StoreAt(sys, steps, w + 1), subject)
  }

  ghost predicate Untouched(sys: System, steps: seq<Step>, from: nat, upTo: nat, subject: string) {
    upTo <= |steps| && forall w :: from <= w < upTo ==> !Touches(sys, steps, w, subject)
  }

  /** What a host may undertake. */
  datatype Discipline = Discipline(invalidates: bool, apart: bool, rolesReadable: bool)

  /** After a write that touches a subject, the subject is invalidated before its next check begins. */
  ghost predicate Invalidated(sys: System, steps: seq<Step>) {
    forall w, b :: 0 <= w < b < |steps| && steps[b].Begin? && Touches(sys, steps, w, steps[b].subject)
                   ==> !Undisturbed(steps, w, b, steps[b].subject)
  }

  /** No check that will update the cache is under way when its subject is invalidated. */
  ghost predicate Apart(sys: System, steps: seq<Step>) {
    forall b: nat, v: nat, j: nat :: b < v < j && Spans(sys, steps, b, j) ==> !Invalidates(steps[v], steps[b].subject)
  }

  ghost predicate RolesReadable(steps: seq<Step>) {
    forall i :: 0 <= i < |steps| && steps[i].ReadRoles? ==> !steps[i].fails
  }

  ghost predicate Keeps(sys: System, steps: seq<Step>, d: Discipline) {
    && (d.invalidates ==> Invalidated(sys, steps)) && (d.apart ==> Apart(sys, steps))
    && (d.rolesReadable ==> RolesReadable(steps))
  }

  /** No lookup of the check itself failed, and nothing touched its subject while it was reading. */
  ghost predicate ReadWell(sys: System, steps: seq<Step>, c: Call)
    requires c.Answered?
  {
    match c.origin
    case Hit => true
    case Stores(r) => !r.rolesFailed && Untouched(sys, steps, c.begun, LastRead(r), c.key.0)
    case Failure => false
  }

  /** If the check has been answered, and has read well, the answer is membership in the effective
      permissions at the moment it began. */
  ghost predicate ExactAt(sys: System, steps: seq<Step>, i: nat, id: CallId) {
    i <= |steps| && id in StateAt(sys, steps, i).calls ==>
      var c := StateAt(sys, steps, i).calls[id];
      c.Answered? && c.begun <= |steps| && ReadWell(sys, steps, c) ==>
        (c.answer <==> c.key.1 in Effective(StoreAt(sys, steps, c.begun), c.key.0))
  }

  lemma {:induction false} ViewUnchanged(sys: System, steps: seq<Step>, from: nat, upTo: nat, subject: string)
    requires from <= upTo && Untouched(sys, steps, from, upTo, subject)
    ensures ViewOf(StoreAt(sys, steps, from), subject) == ViewOf(StoreAt(sys, steps, upTo), subject)
    decreases upTo
  {
    hide StoreAt, ViewOf;
    if from < upTo {
      ViewUnchanged(sys, steps, from, upTo - 1, subject);
      assert !Touches(sys, steps, upTo - 1, subject);
    }
  }

  /** Where the views agree, so do the definitions of the subject's roles. */
  lemma SameDefinition(a: Store, b: Store, subject: string, k: nat)
    requires ViewOf(a, subject) == ViewOf(b, subject) && k < |Roles(a, subject)|
    ensures Definition(a, Roles(a, subject)[k]) == Definition(b, Roles(a, subject)[k])
  {
    assert RolesDefined(a, subject)[k] in ViewOf(a, subject).roles;
  }

  lemma SamePermissions(a: Store, b: Store, subject: string)
    requires ViewOf(a, subject) == ViewOf(b, subject)
    ensures Effective(a, subject) == Effective(b, subject)
  {
    SomeRolePermissions(a, b, subject);
    SomeRolePermissions(b, a, subject);
  }

  lemma SomeRolePermissions(a: Store, b: Store, subject: string)
    requires ViewOf(a, subject) == ViewOf(b, subject)
    ensures RolePermissionsOf(a, subject) <= RolePermissionsOf(b, subject)
  {
    var roles := RolesDefined(a, subject);
    forall p | p in RolePermissionsOf(a, subject) ensures p in RolePermissionsOf(b, subject) {
      var i :| 0 <= i < |roles| && RoleGrants(roles[i], p);
      assert roles[i] in ViewOf(b, subject).roles;
    }
  }

  /** Nothing touches the subject while its roles are looked up: they are read as they were when
      the list was. */
  lemma WalkedAsListed(sys: System, steps: seq<Step>, subject: string, r: Reads)
    requires Orderly(r, |steps|) && |r.walked| <= |Roles(StoreAt(sys, steps, r.roles), subject)| && !r.rolesFailed
    requires Untouched(sys, steps, r.roles, LastRead(r), subject)
    ensures RolesAcross(sys, steps, subject, r)
         == RolesDefined(StoreAt(sys, steps, r.roles), subject)[..|r.walked|]
  {
    hide StoreAt, ViewOf, Touches, Definition;
    var names := Roles(StoreAt(sys, steps, r.roles), subject);
    forall k | 0 <= k < |r.walked|
      ensures Definition(StoreAt(sys, steps, r.walked[k]), names[k])
           == Definition(StoreAt(sys, steps, r.roles), names[k])
    {
      ViewUnchanged(sys, steps, r.roles, r.walked[k], subject);
      SameDefinition(StoreAt(sys, steps, r.roles), StoreAt(sys, steps, r.walked[k]), subject, k);
    }
  }

  /** A check during which nothing touched its subject decides membership. */
  lemma DecidesMembership(sys: System, steps: seq<Step>, i: nat, key: Key, granted: bool, r: Reads)
    requires Decided(sys, steps, i, key, granted, r) && !r.rolesFailed
    requires Untouched(sys, steps, r.begun, LastRead(r), key.0)
    ensures granted <==> key.1 in Effective(StoreAt(sys, steps, r.roles), key.0)
  {
    hide StoreAt, Decided, Touches, RolesAcross, Definition, RolePermissions;
    DecidedEarlier(sys, steps, i, key, granted, r);
    DecidedMeans(sys, steps, i, key, granted, r);
    WalkedAsListed(sys, steps, key.0, r);
    ViewUnchanged(sys, steps, r.denied, r.roles, key.0);
    ViewUnchanged(sys, steps, r.extra, r.roles, key.0);
    PrefixGrants(RolesDefined(StoreAt(sys, steps, r.roles), key.0), |r.walked|, key.1);
  }

  lemma PrefixGrants(roles: seq<RoleRead>, n: nat, p: string)
    requires n <= |roles|
    ensures p in RolePermissions(roles[..n]) ==> p in RolePermissions(roles)
    ensures roles[..|roles|] == roles
  {
    if p in RolePermissions(roles[..n]) {
      var i :| 0 <= i < n && RoleGrants(roles[..n][i], p);
      assert RoleGrants(roles[i], p);
    }
  }

  lemma ViewsAlong(sys: System, steps: seq<Step>, i: nat, from: nat, upTo: nat, key: Key, granted: bool, r: Reads)
    requires Decided(sys, steps, i, key, granted, r) && !r.rolesFailed && from <= r.begun && LastRead(r) <= upTo
    requires Untouched(sys, steps, from, upTo, key.0)
    ensures granted <==> key.1 in Effective(StoreAt(sys, steps, from), key.0)
    ensures granted <==> key.1 in Effective(StoreAt(sys, steps, upTo), key.0)
  {
    hide StoreAt, Decided, ViewOf, Effective, Touches;
    DecidedEarlier(sys, steps, i, key, granted, r);
    DecidesMembership(sys, steps, i, key, granted, r);
    ViewUnchanged(sys, steps, from, r.roles, key.0);
    ViewUnchanged(sys, steps, r.roles, upTo, key.0);
    SamePermissions(StoreAt(sys, steps, from), StoreAt(sys, steps, r.roles), key.0);
    SamePermissions(StoreAt(sys, steps, upTo), StoreAt(sys, steps, r.roles), key.0);
  }

  /** Under the whole discipline nobody can tell that there is a cache, however the checks, the
      writes and the invalidations are interleaved. */
  lemma DisciplinedRunsAreExact(sys: System, steps: seq<Step>, i: nat, id: CallId)
    requires Keeps(sys, steps, Discipline(true, true, true))
    ensures ExactAt(sys, steps, i, id)
  {
    hide StateAt, Enabled, Decided, Effective, Touches, Invalidates;
    if i <= |steps| && id in StateAt(sys, steps, i).calls {
      var c := StateAt(sys, steps, i).calls[id];
      CallIsRight(sys, steps, i, id);
      if c.Answered? && c.origin.Hit? {
        var j, r := HitComesFrom(sys, steps, i, c);
        DecidedEarlier(sys, steps, j, c.key, c.answer, r);
        QuietSince(sys, steps, r.begun, j, c.begun, c.key.0);
        ViewsAlong(sys, steps, j, r.begun, c.begun, c.key, c.answer, r);
      } else if c.Answered? && c.origin.Stores? && ReadWell(sys, steps, c) {
        ViewsAlong(sys, steps, i, c.begun, LastRead(c.origin.read), c.key, c.answer, c.origin.read);
      }
    }
  }

  /** Nothing touched the subject between the start of the check that filled the cache and the
      start of the one that hit it. */
  lemma QuietSince(sys: System, steps: seq<Step>, b: nat, j: nat, hit: nat, subject: string)
    requires Invalidated(sys, steps) && Apart(sys, steps) && Spans(sys, steps, b, j) && j < hit < |steps|
    requires Undisturbed(steps, j, hit, subject) && steps[b].subject == subject
    requires steps[hit].Begin? && steps[hit].subject == subject
    ensures Untouched(sys, steps, b, hit, subject)
  {
    hide StateAt, Enabled, Touches;
    assert Undisturbed(steps, b, hit, subject) by {
      assert steps[b].Begin?;
    }
    forall w | b <= w < hit ensures !Touches(sys, steps, w, subject) {
      assert Undisturbed(steps, w, hit, subject);
    }
  }

  // ---------- and when it can ----------

  ghost predicate AlwaysExact(ttl: nat, maxEntries: nat, d: Discipline) {
    forall initial: Store, steps: seq<Step>, i: nat, id: CallId ::
      Keeps(System(ttl, maxEntries, initial), steps, d) ==> ExactAt(System(ttl, maxEntries, initial), steps, i, id)
  }

  const NOTHING := Store(map[], map[], map[], map[])

  /** "s" may do "p" by an extra grant, and by a role. */
  const BY_EXTRA := Store(map[], map["s" := {"p"}], map[], map[])
  const BY_ROLE := Store(map[], map[], map["s" := ["r"]], map["r" := {"p"}])

  const KEY: Key := ("s", "p")

  lemma StepOn(sys: System, steps: seq<Step>, i: nat, s: State, next: State)
    requires i < |steps| && StateAt(sys, steps, i) == s && Next(sys, s, i, steps[i]) == next
    ensures StateAt(sys, steps, i + 1) == next
  {
  }

  lemma OneEntry(granted: bool, ttl: nat, maxEntries: nat)
    requires maxEntries > 0
    ensures Cached(map[], ttl, maxEntries, KEY, granted, 0, 0) == map[KEY := Entry(granted, ttl)]
  {
    var empty: Cache := map[];
    assert |empty[KEY := Entry(granted, ttl)]| == 1;
  }

  /** A check up to the point where it has decided to grant because of an extra permission. */
  const GRANT := [Begin(0, "s", "p", 0), ReadDenied(0, false, 0), ReadExtra(0, false, 0)]

  lemma AfterGrant(sys: System, steps: seq<Step>)
    requires sys.initial == BY_EXTRA && |steps| >= 3 && steps[..3] == GRANT
    ensures StateAt(sys, steps, 3)
         == State(BY_EXTRA, map[], map[0 := Deciding(KEY, 0, true, Reads(0, 1, 2, 2, [], false))])
  {
    hide StateAt;
    assert steps[0] == GRANT[0] && steps[1] == GRANT[1] && steps[2] == GRANT[2];
    Start(sys, steps);
    StepOn(sys, steps, 0, State(BY_EXTRA, map[], map[]), State(BY_EXTRA, map[], map[0 := Missed(KEY, 0)]));
    StepOn(sys, steps, 1, State(BY_EXTRA, map[], map[0 := Missed(KEY, 0)]),
           State(BY_EXTRA, map[], map[0 := NotDenied(KEY, 0, 1)]));
    StepOn(sys, steps, 2, State(BY_EXTRA, map[], map[0 := NotDenied(KEY, 0, 1)]),
           State(BY_EXTRA, map[], map[0 := Deciding(KEY, 0, true, Reads(0, 1, 2, 2, [], false))]));
  }

  lemma Start(sys: System, steps: seq<Step>)
    ensures StateAt(sys, steps, 0) == State(sys.initial, map[], map[])
  {
  }

  /** A grant is cached, then taken away without an invalidation, and asked for again at `later`. */
  function NotInvalidated(later: int): seq<Step> {
    GRANT + [Update(0, 0, 0, 0), Write(NOTHING, 0), Begin(1, "s", "p", later)]
  }

  /** The bound is tight: without an invalidation a revoked permission is still reported until the
      TTL has passed, and not a moment longer. */
  lemma StaleUntilTtl(ttl: nat, maxEntries: nat, later: int)
    requires maxEntries > 0
    ensures var s := StateAt(System(ttl, maxEntries, BY_EXTRA), NotInvalidated(later), 6);
            && s.store == NOTHING && 1 in s.calls
            && s.calls[1] == if later < ttl then Answered(KEY, 5, true, Hit) else Missed(KEY, 5)
  {
    hide StateAt, Cached;
    var sys, steps := System(ttl, maxEntries, BY_EXTRA), NotInvalidated(later);
    assert steps[..3] == GRANT;
    AfterGrant(sys, steps);
    OneEntry(true, ttl, maxEntries);
    var deciding := Deciding(KEY, 0, true, Reads(0, 1, 2, 2, [], false));
    var done := Answered(KEY, 0, true, Stores(Reads(0, 1, 2, 2, [], false)));
    var cache: Cache := map[KEY := Entry(true, ttl)];
    StepOn(sys, steps, 3, State(BY_EXTRA, map[], map[0 := deciding]), State(BY_EXTRA, cache, map[0 := done]));
    StepOn(sys, steps, 4, State(BY_EXTRA, cache, map[0 := done]), State(NOTHING, cache, map[0 := done]));
    StepOn(sys, steps, 5, State(NOTHING, cache, map[0 := done]),
           Next(sys, State(NOTHING, cache, map[0 := done]), 5, steps[5]));
  }

  /** A check under way across an invalidation caches what it had read before. */
  const ACROSS := GRANT + [Write(NOTHING, 0), InvalidateAll(0), Update(0, 0, 0, 0), Begin(1, "s", "p", 0)]

  lemma CachedAcross(ttl: nat, maxEntries: nat)
    requires ttl > 0 && maxEntries > 0
    ensures var s := StateAt(System(ttl, maxEntries, BY_EXTRA), ACROSS, 7);
            StoreAt(System(ttl, maxEntries, BY_EXTRA), ACROSS, 6) == NOTHING
            && 1 in s.calls && s.calls[1] == Answered(KEY, 6, true, Hit)
  {
    hide StateAt, Cached;
    var sys, steps := System(ttl, maxEntries, BY_EXTRA), ACROSS;
    assert steps[..3] == GRANT;
    AfterGrant(sys, steps);
    OneEntry(true, ttl, maxEntries);
    var deciding := Deciding(KEY, 0, true, Reads(0, 1, 2, 2, [], false));
    var done := Answered(KEY, 0, true, Stores(Reads(0, 1, 2, 2, [], false)));
    var cache: Cache := map[KEY := Entry(true, ttl)];
    StepOn(sys, steps, 3, State(BY_EXTRA, map[], map[0 := deciding]), State(NOTHING, map[], map[0 := deciding]));
    StepOn(sys, steps, 4, State(NOTHING, map[], map[0 := deciding]), State(NOTHING, map[], map[0 := deciding]));
    StepOn(sys, steps, 5, State(NOTHING, map[], map[0 := deciding]), State(NOTHING, cache, map[0 := done]));
    StepOn(sys, steps, 6, State(NOTHING, cache, map[0 := done]),
           Next(sys, State(NOTHING, cache, map[0 := done]), 6, steps[6]));
  }

  /** A failed lookup of roles is cached as a denial. */
  const ROLES_FAIL := [Begin(0, "s", "p", 0), ReadDenied(0, false, 0), ReadExtra(0, false, 0), ReadRoles(0, true, 0),
                       Update(0, 0, 0, 0), Begin(1, "s", "p", 0)]

  lemma FailureCached(ttl: nat, maxEntries: nat)
    requires ttl > 0 && maxEntries > 0
    ensures var s := StateAt(System(ttl, maxEntries, BY_ROLE), ROLES_FAIL, 6);
            StoreAt(System(ttl, maxEntries, BY_ROLE), ROLES_FAIL, 5) == BY_ROLE
            && 1 in s.calls && s.calls[1] == Answered(KEY, 5, false, Hit)
  {
    hide StateAt, Cached;
    var sys, steps := System(ttl, maxEntries, BY_ROLE), ROLES_FAIL;
    Start(sys, steps);
    OneEntry(false, ttl, maxEntries);
    var read := Reads(0, 1, 2, 3, [], true);
    var cache: Cache := map[KEY := Entry(false, ttl)];
    StepOn(sys, steps, 0, State(BY_ROLE, map[], map[]), State(BY_ROLE, map[], map[0 := Missed(KEY, 0)]));
    StepOn(sys, steps, 1, State(BY_ROLE, map[], map[0 := Missed(KEY, 0)]),
           State(BY_ROLE, map[], map[0 := NotDenied(KEY, 0, 1)]));
    StepOn(sys, steps, 2, State(BY_ROLE, map[], map[0 := NotDenied(KEY, 0, 1)]),
           State(BY_ROLE, map[], map[0 := NotExtra(KEY, 0, 1, 2)]));
    StepOn(sys, steps, 3, State(BY_ROLE, map[], map[0 := NotExtra(KEY, 0, 1, 2)]),
           State(BY_ROLE, map[], map[0 := Deciding(KEY, 0, false, read)]));
    var done := Answered(KEY, 0, false, Stores(read));
    StepOn(sys, steps, 4, State(BY_ROLE, map[], map[0 := Deciding(KEY, 0, false, read)]),
           State(BY_ROLE, cache, map[0 := done]));
    StepOn(sys, steps, 5, State(BY_ROLE, cache, map[0 := done]),
           Next(sys, State(BY_ROLE, cache, map[0 := done]), 5, steps[5]));
  }

  /** "s" may do "p" by one of its two roles, and by the other. */
  const BY_SECOND := Store(map[], map[], map["s" := ["q", "r"]], map["r" := {"p"}])
  const BY_FIRST := Store(map[], map[], map["s" := ["q", "r"]], map["q" := {"p"}])

  const MOVED := [Begin(0, "s", "p", 0), ReadDenied(0, false, 0), ReadExtra(0, false, 0), ReadRoles(0, false, 0),
                  ReadRole(0, 0), Write(BY_FIRST, 0), ReadRole(0, 0), Update(0, 0, 0, 0), Begin(1, "s", "p", 0)]

  /** A permission that moves between two roles while a check walks over them is missed, though the
      subject has it all along, and the denial is cached. */
  lemma MovedPermissionIsMissed(ttl: nat, maxEntries: nat)
    requires ttl > 0 && maxEntries > 0
    ensures "p" in Effective(BY_SECOND, "s") && "p" in Effective(BY_FIRST, "s")
    ensures var s := StateAt(System(ttl, maxEntries, BY_SECOND), MOVED, 9);
            1 in s.calls && s.calls[1] == Answered(KEY, 8, false, Hit)
  {
    hide StateAt, Cached;
    assert RoleGrants(RolesDefined(BY_SECOND, "s")[1], "p") && RoleGrants(RolesDefined(BY_FIRST, "s")[0], "p");
    MovedSteps(System(ttl, maxEntries, BY_SECOND));
    var sys, steps := System(ttl, maxEntries, BY_SECOND), MOVED;
    OneEntry(false, ttl, maxEntries);
    var read := Reads(0, 1, 2, 3, [4, 6], false);
    var cache: Cache := map[KEY := Entry(false, ttl)];
    var done := Answered(KEY, 0, false, Stores(read));
    StepOn(sys, steps, 7, State(BY_FIRST, map[], map[0 := Deciding(KEY, 0, false, read)]),
           State(BY_FIRST, cache, map[0 := done]));
    StepOn(sys, steps, 8, State(BY_FIRST, cache, map[0 := done]),
           Next(sys, State(BY_FIRST, cache, map[0 := done]), 8, steps[8]));
  }

  lemma MovedSteps(sys: System)
    requires sys.initial == BY_SECOND
    ensures StateAt(sys, MOVED, 7)
         == State(BY_FIRST, map[], map[0 := Deciding(KEY, 0, false, Reads(0, 1, 2, 3, [4, 6], false))])
  {
    hide StateAt, CallAfter;
    var steps := MOVED;
    var first := Walking(KEY, 0, 1, 2, 3, ["q", "r"], []);
    var second := Walking(KEY, 0, 1, 2, 3, ["q", "r"], [4]);
    var decided := Deciding(KEY, 0, false, Reads(0, 1, 2, 3, [4, 6], false));
    MovedListed(sys);
    NothingFound(State(BY_SECOND, map[], map[0 := first]), 4, steps[4]);
    assert [] + [4] == [4] && [4] + [6] == [4, 6];
    StepOn(sys, steps, 4, State(BY_SECOND, map[], map[0 := first]), State(BY_SECOND, map[], map[0 := second]));
    StepOn(sys, steps, 5, State(BY_SECOND, map[], map[0 := second]), State(BY_FIRST, map[], map[0 := second]));
    NothingFound(State(BY_FIRST, map[], map[0 := second]), 6, steps[6]);
    StepOn(sys, steps, 6, State(BY_FIRST, map[], map[0 := second]), State(BY_FIRST, map[], map[0 := decided]));
  }

  /** A role without a definition is looked up, and is the last of the list or not. */
  lemma NothingFound(s: State, i: nat, step: Step)
    requires step.ReadRole? && Enabled(s, step)
    requires var c := s.calls[step.id]; c.names[|c.walked|] !in s.store.registry
    ensures var c := s.calls[step.id];
            var walked := c.walked + [i];
            CallAfter(s, i, step)
            == if |walked| == |c.names| then
              Deciding(c.key, c.begun, false, Reads(c.begun, c.denied, c.extra, c.listed, walked, false))
            else c.(walked := walked)
  {
  }

  /** The list of roles has been read. */
  lemma MovedListed(sys: System)
    requires sys.initial == BY_SECOND
    ensures StateAt(sys, MOVED, 4) == State(BY_SECOND, map[], map[0 := Walking(KEY, 0, 1, 2, 3, ["q", "r"], [])])
  {
    hide StateAt;
    var steps := MOVED;
    Start(sys, steps);
    StepOn(sys, steps, 0, State(BY_SECOND, map[], map[]), State(BY_SECOND, map[], map[0 := Missed(KEY, 0)]));
    StepOn(sys, steps, 1, State(BY_SECOND, map[], map[0 := Missed(KEY, 0)]),
           State(BY_SECOND, map[], map[0 := NotDenied(KEY, 0, 1)]));
    StepOn(sys, steps, 2, State(BY_SECOND, map[], map[0 := NotDenied(KEY, 0, 1)]),
           State(BY_SECOND, map[], map[0 := NotExtra(KEY, 0, 1, 2)]));
    StepOn(sys, steps, 3, State(BY_SECOND, map[], map[0 := NotExtra(KEY, 0, 1, 2)]),
           State(BY_SECOND, map[], map[0 := Walking(KEY, 0, 1, 2, 3, ["q", "r"], [])]));
  }

  /** The three parts of the discipline are what it takes: every run that keeps `d` is exact for
      every check that reads well, if and only if `d` asks for all of them. */
  lemma AlwaysExactExactly(ttl: nat, maxEntries: nat, d: Discipline)
    requires ttl > 0 && maxEntries > 0
    ensures AlwaysExact(ttl, maxEntries, d) <==> d.invalidates && d.apart && d.rolesReadable
  {
    hide Keeps, ExactAt;
    if d.invalidates && d.apart && d.rolesReadable {
      forall initial: Store, steps: seq<Step>, i: nat, id: CallId | Keeps(System(ttl, maxEntries, initial), steps, d)
        ensures ExactAt(System(ttl, maxEntries, initial), steps, i, id)
      {
        DisciplinedRunsAreExact(System(ttl, maxEntries, initial), steps, i, id);
      }
    } else if !d.invalidates {
      WithoutInvalidation(ttl, maxEntries, d);
    } else if !d.apart {
      WithChecksAcross(ttl, maxEntries, d);
    } else {
      WithFailingRoles(ttl, maxEntries, d);
    }
  }

  lemma WithoutInvalidation(ttl: nat, maxEntries: nat, d: Discipline)
    requires ttl > 0 && maxEntries > 0 && !d.invalidates
    ensures Keeps(System(ttl, maxEntries, BY_EXTRA), NotInvalidated(0), d)
    ensures !ExactAt(System(ttl, maxEntries, BY_EXTRA), NotInvalidated(0), 6, 1)
  {
    hide StateAt, Enabled;
    StaleUntilTtl(ttl, maxEntries, 0);
    StoreBeforeBegin(System(ttl, maxEntries, BY_EXTRA), NotInvalidated(0), 5);
  }

  lemma StoreBeforeBegin(sys: System, steps: seq<Step>, i: nat)
    requires i < |steps| && steps[i].Begin?
    ensures StoreAt(sys, steps, i) == StoreAt(sys, steps, i + 1)
  {
    hide CallAfter;
  }

  lemma WithChecksAcross(ttl: nat, maxEntries: nat, d: Discipline)
    requires ttl > 0 && maxEntries > 0 && !d.apart
    ensures Keeps(System(ttl, maxEntries, BY_EXTRA), ACROSS, d)
    ensures !ExactAt(System(ttl, maxEntries, BY_EXTRA), ACROSS, 7, 1)
  {
    hide StateAt, Keeps;
    AcrossKeeps(System(ttl, maxEntries, BY_EXTRA), d);
    CachedAcross(ttl, maxEntries);
  }

  lemma AcrossKeeps(sys: System, d: Discipline)
    requires !d.apart
    ensures Keeps(sys, ACROSS, d)
  {
    hide StateAt, Enabled;
    forall w, b | 0 <= w < b < |ACROSS| && ACROSS[b].Begin? && Touches(sys, ACROSS, w, ACROSS[b].subject)
      ensures !Undisturbed(ACROSS, w, b, ACROSS[b].subject)
    {
      OnlyWritesTouch(sys, ACROSS, w, "s");
      assert ACROSS[w].Write? && Invalidates(ACROSS[4], "s");
    }
  }

  lemma OnlyWritesTouch(sys: System, steps: seq<Step>, w: nat, subject: string)
    requires Touches(sys, steps, w, subject)
    ensures steps[w].Write?
  {
    hide CallAfter, ViewOf;
  }

  lemma WithFailingRoles(ttl: nat, maxEntries: nat, d: Discipline)
    requires ttl > 0 && maxEntries > 0 && !d.rolesReadable
    ensures Keeps(System(ttl, maxEntries, BY_ROLE), ROLES_FAIL, d)
    ensures !ExactAt(System(ttl, maxEntries, BY_ROLE), ROLES_FAIL, 6, 1)
  {
    hide StateAt, Enabled;
    var sys := System(ttl, maxEntries, BY_ROLE);
    FailureCached(ttl, maxEntries);
    forall w, b | 0 <= w < b < |ROLES_FAIL| && ROLES_FAIL[b].Begin?
      ensures !Touches(sys, ROLES_FAIL, w, ROLES_FAIL[b].subject)
    {
      if Touches(sys, ROLES_FAIL, w, ROLES_FAIL[b].subject) {
        OnlyWritesTouch(sys, ROLES_FAIL, w, ROLES_FAIL[b].subject);
      }
    }
    assert RoleGrants(RolesDefined(BY_ROLE, "s")[0], "p");
  }
}
