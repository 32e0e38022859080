/** The single-use store of `packages/session/src/one_shot.rs`: it remembers the ids of one-shot
    tokens until they expire, sweeps at most once a minute, and denies when it is full. */
module OneShot {
  import opened Collections

  const PRUNE_INTERVAL_SECS: int := 60

  /** Token ids and the expiry each was marked with. */
  type Used = map<string, int>

  // ---------- one call, on values ----------

  function Unexpired(used: Used, now: int): Used { map j | j in used && used[j] > now :: used[j] }

  datatype State = State(used: Used, lastPrune: int)

  /** The sweep that is due every minute. */
  function Pruned(s: State, now: int): State {
    if now - s.lastPrune < PRUNE_INTERVAL_SECS then s else State(Unexpired(s.used, now), now)
  }

  /** Swept once more when the map is at its ceiling. */
  function Shed(s: State, maxJtis: nat, now: int): State {
    var p := Pruned(s, now);
    if |p.used| >= maxJtis then p.(used := Unexpired(p.used, now)) else p
  }

  /** Answered "replay": full even after shedding, or still remembered. */
  predicate Denied(s: State, maxJtis: nat, jti: string, now: int) {
    var kept := Shed(s, maxJtis, now).used;
    |kept| >= maxJtis || jti in kept
  }

  function After(s: State, maxJtis: nat, jti: string, expiry: int, now: int): State {
    var kept := Shed(s, maxJtis, now);
    if |kept.used| >= maxJtis then kept else kept.(used := kept.used[jti := expiry])
  }

  class OneShotStore {
    const maxJtis: nat
    var used: Used
    var lastPrune: int

    ghost predicate Valid()
      reads this
    {
      maxJtis >= 1 && |used| <= maxJtis
    }

    ghost function Value(): State
      reads this
    {
      State(used, lastPrune)
    }

    constructor (maxJtis: nat)
      ensures Valid() && Value() == NEW
      ensures this.maxJtis == if maxJtis < 1 then 1 else maxJtis
    {
      this.maxJtis := if maxJtis < 1 then 1 else maxJtis;
      used := map[];
      lastPrune := 0;
    }

    method MaybePrune(now: int)
      requires Valid()
      modifies this
      ensures Valid() && Value() == Pruned(old(Value()), now)
    {
      UnexpiredIsPart(used, now);
      if now - lastPrune < PRUNE_INTERVAL_SECS {
        return;
      }
      lastPrune := now;
      used := Unexpired(used, now);
    }

    method CheckAndMark(jti: string, expiry: int, now: int) returns (replay: bool)
      requires Valid()
      modifies this
      ensures Valid() && replay == Denied(old(Value()), maxJtis, jti, now)
      ensures |used| <= maxJtis
      ensures Value() == After(old(Value()), maxJtis, jti, expiry, now)
    {
      MaybePrune(now);
      if |used| >= maxJtis {
        UnexpiredIsPart(used, now);
        used := Unexpired(used, now);
        if |used| >= maxJtis {
          return true;
        }
      }
      OneMore(used, jti, expiry);
      replay := jti in used;
      used := used[jti := expiry];
    }
  }

  lemma UnexpiredIsPart(used: Used, now: int)
    ensures |Unexpired(used, now)| <= |used|
    ensures forall j :: j in Unexpired(used, now) ==> j in used && used[j] == Unexpired(used, now)[j]
  {
    SubsetSize(Unexpired(used, now).Keys, used.Keys);
  }

  lemma OneMore(used: Used, jti: string, expiry: int)
    ensures |used[jti := expiry]| <= |used| + 1
  {
    SubsetSize(used[jti := expiry].Keys, used.Keys + {jti});
  }

  /** The ceiling: a token id that is not remembered is refused exactly when the ceiling is met by
      unexpired ids alone. */
  lemma UntrackedRefusedExactly(s: State, maxJtis: nat, jti: string, now: int)
    requires |s.used| <= maxJtis && jti !in s.used
    ensures Denied(s, maxJtis, jti, now) <==> |Unexpired(s.used, now)| == maxJtis
  {
    UnexpiredIsPart(s.used, now);
    assert Unexpired(Unexpired(s.used, now), now) == Unexpired(s.used, now);
    UnexpiredIsPart(Pruned(s, now).used, now);
  }

  /** An id is refused exactly when unexpired ids alone meet the ceiling, or when it is remembered:
      until it expires, and below the ceiling on until the next sweep. */
  lemma RefusedExactly(s: State, maxJtis: nat, jti: string, now: int)
    requires |s.used| <= maxJtis
    ensures Denied(s, maxJtis, jti, now)
       <==> || |Unexpired(s.used, now)| == maxJtis
            || (jti in s.used && (now < s.used[jti] || (|s.used| < maxJtis && now < s.lastPrune + 60)))
  {
    UnexpiredIsPart(s.used, now);
    assert Unexpired(Unexpired(s.used, now), now) == Unexpired(s.used, now);
    UnexpiredIsPart(Pruned(s, now).used, now);
  }

  /** A call at the ceiling of unexpired ids marks nothing.  Any other marks its id with its expiry,
      changes no other, and forgets only what has expired. */
  lemma MarksOnlyItsId(s: State, maxJtis: nat, jti: string, expiry: int, now: int)
    requires |s.used| <= maxJtis
    ensures var used, full := After(s, maxJtis, jti, expiry, now).used, |Unexpired(s.used, now)| == maxJtis;
            && (full ==> used == s.used)
            && (!full ==> jti in used && used[jti] == expiry)
            && (forall j :: j in used && j != jti ==> j in s.used && used[j] == s.used[j])
            && (forall j :: j in s.used && j !in used ==> s.used[j] <= now)
  {
    UnexpiredIsPart(s.used, now);
    assert Unexpired(Unexpired(s.used, now), now) == Unexpired(s.used, now);
    UnexpiredIsPart(Pruned(s, now).used, now);
    if |Unexpired(s.used, now)| == maxJtis {
      AllUnexpired(s.used, now);
    }
  }

  lemma AllUnexpired(used: Used, now: int)
    ensures |Unexpired(used, now)| >= |used| ==> Unexpired(used, now) == used
  {
    var kept := Unexpired(used, now);
    if kept.Keys != used.Keys {
      var j :| j in used && j !in kept;
      SubsetSize(kept.Keys, used.Keys - {j});
    }
  }

  /** A remembered one that has not expired is always refused. */
  lemma TrackedRefused(s: State, maxJtis: nat, jti: string, now: int)
    requires jti in s.used && s.used[jti] > now
    ensures Denied(s, maxJtis, jti, now)
  {
  }

  // ---------- runs ----------

  datatype Call = Call(jti: string, expiry: int, now: int)

  function StateAt(start: State, maxJtis: nat, calls: seq<Call>, i: nat): State
    requires i <= |calls|
  {
    if i == 0 then start
    else After(StateAt(start, maxJtis, calls, i - 1), maxJtis, calls[i - 1].jti, calls[i - 1].expiry, calls[i - 1].now)
  }

  /** Call number i is told "fresh". */
  predicate FreshAt(start: State, maxJtis: nat, calls: seq<Call>, i: nat)
    requires i < |calls|
  {
    !Denied(StateAt(start, maxJtis, calls, i), maxJtis, calls[i].jti, calls[i].now)
  }

  lemma {:induction false} CeilingHolds(start: State, maxJtis: nat, calls: seq<Call>, i: nat)
    requires i <= |calls| && |start.used| <= maxJtis
    ensures |StateAt(start, maxJtis, calls, i).used| <= maxJtis
  {
    if i > 0 {
      CeilingHolds(start, maxJtis, calls, i - 1);
      var s, c := StateAt(start, maxJtis, calls, i - 1), calls[i - 1];
      UnexpiredIsPart(s.used, c.now);
      UnexpiredIsPart(Pruned(s, c.now).used, c.now);
      OneMore(Shed(s, maxJtis, c.now).used, c.jti, c.expiry);
    }
  }

  /** No call for the same id strictly between calls `i` and `j` carries an expiry below `least`. */
  ghost predicate NoneEarlier(calls: seq<Call>, i: nat, j: nat, least: int)
    requires i < j <= |calls|
  {
    forall k :: i < k < j && calls[k].jti == calls[i].jti ==> calls[k].expiry >= least
  }

  lemma StepRemembers(s: State, maxJtis: nat, c: Call, jti: string, expiry: int)
    requires jti in s.used && s.used[jti] >= expiry && c.now < expiry && (c.jti == jti ==> c.expiry >= expiry)
    ensures var used := After(s, maxJtis, c.jti, c.expiry, c.now).used; jti in used && used[jti] >= expiry
  {
  }

  lemma FreshIsMarked(s: State, maxJtis: nat, c: Call)
    requires !Denied(s, maxJtis, c.jti, c.now)
    ensures var used := After(s, maxJtis, c.jti, c.expiry, c.now).used; c.jti in used && used[c.jti] == c.expiry
  {
  }

  /** Marked at call i, and neither presented with an earlier expiry nor asked about at a later
      time since, an id is still remembered. */
  lemma {:induction false} StillRemembered(start: State, maxJtis: nat, calls: seq<Call>, i: nat, j: nat)
    requires i < j <= |calls| && FreshAt(start, maxJtis, calls, i) && NoneEarlier(calls, i, j, calls[i].expiry)
    requires forall k :: i < k < j ==> calls[k].now < calls[i].expiry
    ensures var used := StateAt(start, maxJtis, calls, j).used;
            calls[i].jti in used && used[calls[i].jti] >= calls[i].expiry
    decreases j
  {
    hide After, Denied;
    if j == i + 1 {
      FreshIsMarked(StateAt(start, maxJtis, calls, i), maxJtis, calls[i]);
    } else {
      StillRemembered(start, maxJtis, calls, i, j - 1);
      StepRemembers(StateAt(start, maxJtis, calls, j - 1), maxJtis, calls[j - 1], calls[i].jti, calls[i].expiry);
    }
  }

  /** Both calls are told "fresh" about the same id. */
  predicate FreshTwice(start: State, maxJtis: nat, calls: seq<Call>, i: nat, j: nat)
    requires i < j < |calls|
  {
    calls[i].jti == calls[j].jti && FreshAt(start, maxJtis, calls, i) && FreshAt(start, maxJtis, calls, j)
  }

  /** On any clock: fresh twice, with no earlier expiry presented in between, means that some
      reading after the first call, up to and including the second's, was at or past the expiry. */
  lemma FreshTwiceMeansExpired(start: State, maxJtis: nat, calls: seq<Call>, i: nat, j: nat)
    requires i < j < |calls| && FreshTwice(start, maxJtis, calls, i, j) && NoneEarlier(calls, i, j, calls[i].expiry)
    ensures exists k :: i < k <= j && calls[k].now >= calls[i].expiry
  {
    hide StateAt, Denied;
    if forall k :: i < k <= j ==> calls[k].now < calls[i].expiry {
      StillRemembered(start, maxJtis, calls, i, j);
      TrackedRefused(StateAt(start, maxJtis, calls, j), maxJtis, calls[j].jti, calls[j].now);
    }
  }

  ghost predicate InOrder(calls: seq<Call>) {
    forall k, l :: 0 <= k < l < |calls| ==> calls[k].now <= calls[l].now
  }

  /** On a clock that never runs back: then the id has expired when it is fresh again. */
  lemma FreshTwiceOnlyAfterExpiry(start: State, maxJtis: nat, calls: seq<Call>, i: nat, j: nat)
    requires i < j < |calls| && FreshTwice(start, maxJtis, calls, i, j) && NoneEarlier(calls, i, j, calls[i].expiry)
    requires InOrder(calls)
    ensures calls[j].now >= calls[i].expiry
  {
    hide FreshAt;
    FreshTwiceMeansExpired(start, maxJtis, calls, i, j);
  }

  // ---------- earlier expiries ----------

  /** A store as it is made. */
  const NEW := State(map[], 0)

  /** In every run from `start` on a clock that never runs back: an id marked with `expiry`, and
      presented since with no expiry below `least`, is not fresh again before `expiry`. */
  ghost predicate NeverFreshEarly(start: State, maxJtis: nat, expiry: int, least: int) {
    forall calls: seq<Call>, i: nat, j: nat ::
      i < j < |calls| && InOrder(calls) && FreshTwice(start, maxJtis, calls, i, j) && calls[i].expiry == expiry
      && NoneEarlier(calls, i, j, least)
      ==> calls[j].now >= expiry
  }

  lemma FreshAlone(s: State, maxJtis: nat, c: Call)
    requires maxJtis <= 1 && !Denied(s, maxJtis, c.jti, c.now)
    ensures After(s, maxJtis, c.jti, c.expiry, c.now).used == map[c.jti := c.expiry]
  {
    assert Shed(s, maxJtis, c.now).used == map[];
  }

  lemma FullStays(s: State, maxJtis: nat, c: Call, jti: string, expiry: int)
    requires maxJtis <= 1 && s.used == map[jti := expiry] && c.now < expiry
    ensures After(s, maxJtis, c.jti, c.expiry, c.now).used == map[jti := expiry]
  {
    assert Unexpired(s.used, c.now) == s.used && |s.used| == 1;
  }

  /** A ceiling of one id is full until that id expires, so nothing overwrites it. */
  lemma {:induction false} OnlyOneRemembered(start: State, maxJtis: nat, calls: seq<Call>, i: nat, j: nat)
    requires i < j <= |calls| && maxJtis <= 1 && FreshAt(start, maxJtis, calls, i)
    requires forall k :: i < k < j ==> calls[k].now < calls[i].expiry
    ensures StateAt(start, maxJtis, calls, j).used == map[calls[i].jti := calls[i].expiry]
    decreases j
  {
    hide After, Denied;
    var s := StateAt(start, maxJtis, calls, j - 1);
    if j == i + 1 {
      FreshAlone(s, maxJtis, calls[i]);
    } else {
      OnlyOneRemembered(start, maxJtis, calls, i, j - 1);
      FullStays(s, maxJtis, calls[j - 1], calls[i].jti, calls[i].expiry);
    }
  }

  lemma CeilingOfOne(start: State, maxJtis: nat, calls: seq<Call>, i: nat, j: nat)
    requires i < j < |calls| && maxJtis <= 1 && FreshTwice(start, maxJtis, calls, i, j) && InOrder(calls)
    ensures calls[j].now >= calls[i].expiry
  {
    hide StateAt, Denied;
    if calls[j].now < calls[i].expiry {
      OnlyOneRemembered(start, maxJtis, calls, i, j);
      TrackedRefused(StateAt(start, maxJtis, calls, j), maxJtis, calls[j].jti, calls[j].now);
    }
  }

  /** Marked, presented again with the earlier expiry `least`, and asked about at the first sweep
      after that. */
  function Overwritten(expiry: int, least: int): seq<Call> {
    [Call("j", expiry, 0), Call("j", least, 0),
     Call("j", expiry, if least < PRUNE_INTERVAL_SECS then PRUNE_INTERVAL_SECS else least)]
  }

  /** A replay is refused, but it overwrites the expiry all the same; one with an earlier expiry
      makes a new store forget the id too soon, at the next sweep. */
  lemma EarlierExpiryForgets(maxJtis: nat, expiry: int, least: int)
    requires maxJtis > 1 && least < expiry && expiry > PRUNE_INTERVAL_SECS
    ensures FreshTwice(NEW, maxJtis, Overwritten(expiry, least), 0, 2) && InOrder(Overwritten(expiry, least))
    ensures NoneEarlier(Overwritten(expiry, least), 0, 2, least) && Overwritten(expiry, least)[2].now < expiry
  {
    var calls := Overwritten(expiry, least);
    var empty: Used := map[];
    assert StateAt(NEW, maxJtis, calls, 0) == NEW;
    assert |empty["j" := expiry]| == 1 && |empty["j" := least]| == 1;
    assert StateAt(NEW, maxJtis, calls, 1) == State(map["j" := expiry], 0);
    assert StateAt(NEW, maxJtis, calls, 2) == State(map["j" := least], 0);
    assert Unexpired(map["j" := least], calls[2].now) == empty;
  }

  // ---------- and without a sweep, at the ceiling ----------

  function Name(n: nat): string { if n == 0 then "k" else Name(n - 1) + "k" }

  lemma {:induction false} NameLength(n: nat)
    ensures |Name(n)| == n + 1 && Name(n)[0] == 'k'
  {
    if n > 0 {
      NameLength(n - 1);
    }
  }

  /** "j" and `n` other ids, all with this expiry. */
  function Filled(n: nat, least: int): Used {
    if n == 0 then map["j" := least] else Filled(n - 1, least)[Name(n - 1) := least]
  }

  lemma {:induction false} FilledKeys(n: nat, least: int)
    ensures |Filled(n, least)| == n + 1 && "j" in Filled(n, least)
    ensures forall j :: j in Filled(n, least) ==> Filled(n, least)[j] == least
    ensures forall m: nat :: m >= n ==> Name(m) !in Filled(n, least)
  {
    hide Name;
    forall m: nat | m >= n ensures Name(m) != "j" && (n > 0 ==> Name(m) != Name(n - 1)) {
      NameLength(m);
      if n > 0 {
        NameLength(n - 1);
      }
    }
    if n > 0 {
      FilledKeys(n - 1, least);
    }
  }

  /** All at one moment: marked, presented again with an expiry of that moment, and then `n` others. */
  function Filling(n: nat, expiry: int, least: int): seq<Call> {
    if n == 0 then [Call("j", expiry, least), Call("j", least, least)]
    else Filling(n - 1, expiry, least) + [Call(Name(n - 1), least, least)]
  }

  lemma {:induction false} FillingCalls(n: nat, expiry: int, least: int)
    ensures var calls := Filling(n, expiry, least);
            && |calls| == n + 2 && calls[0] == Call("j", expiry, least)
            && (forall k :: 0 <= k < |calls| ==> calls[k].now == least)
            && (forall k :: 1 <= k < |calls| ==> calls[k].expiry == least)
  {
    if n > 0 {
      FillingCalls(n - 1, expiry, least);
    }
  }

  /** When the store last swept. */
  function LastSweep(least: int): int { if least < PRUNE_INTERVAL_SECS then 0 else least }

  lemma {:induction false} StateOfPrefix(start: State, maxJtis: nat, calls: seq<Call>, more: seq<Call>, i: nat)
    requires i <= |calls|
    ensures StateAt(start, maxJtis, calls + more, i) == StateAt(start, maxJtis, calls, i)
  {
    if i > 0 {
      StateOfPrefix(start, maxJtis, calls, more, i - 1);
    }
  }

  lemma {:induction false} FillingFills(maxJtis: nat, n: nat, expiry: int, least: int)
    requires n < maxJtis && maxJtis > 1 && least < expiry
    ensures |Filling(n, expiry, least)| == n + 2
    ensures StateAt(NEW, maxJtis, Filling(n, expiry, least), n + 2) == State(Filled(n, least), LastSweep(least))
  {
    hide After, StateAt, Filling, Filled;
    FillingCalls(n, expiry, least);
    if n == 0 {
      FirstTwo(maxJtis, expiry, least);
    } else {
      FillingFills(maxJtis, n - 1, expiry, least);
      OneMoreFilled(maxJtis, n - 1, expiry, least);
    }
  }

  lemma OneMoreFilled(maxJtis: nat, n: nat, expiry: int, least: int)
    requires n + 1 < maxJtis && |Filling(n, expiry, least)| == n + 2
    requires StateAt(NEW, maxJtis, Filling(n, expiry, least), n + 2) == State(Filled(n, least), LastSweep(least))
    ensures |Filling(n + 1, expiry, least)| == n + 3
    ensures StateAt(NEW, maxJtis, Filling(n + 1, expiry, least), n + 3) == State(Filled(n + 1, least), LastSweep(least))
  {
    hide After, StateAt, Filling, Filled, Name, LastSweep;
    FillingStep(n, expiry, least);
    var calls, c := Filling(n, expiry, least), Call(Name(n), least, least);
    StateOfPrefix(NEW, maxJtis, calls, [c], n + 2);
    StateNext(NEW, maxJtis, calls + [c], n + 2);
    OneMoreFits(maxJtis, n, least);
  }

  lemma FillingStep(n: nat, expiry: int, least: int)
    ensures Filling(n + 1, expiry, least) == Filling(n, expiry, least) + [Call(Name(n), least, least)]
  {
  }

  lemma StateNext(start: State, maxJtis: nat, calls: seq<Call>, i: nat)
    requires i < |calls|
    ensures StateAt(start, maxJtis, calls, i + 1)
         == After(StateAt(start, maxJtis, calls, i), maxJtis, calls[i].jti, calls[i].expiry, calls[i].now)
  {
  }

  lemma OneMoreFits(maxJtis: nat, n: nat, least: int)
    requires n + 1 < maxJtis
    ensures After(State(Filled(n, least), LastSweep(least)), maxJtis, Name(n), least, least)
         == State(Filled(n + 1, least), LastSweep(least))
  {
    FilledKeys(n, least);
  }

  lemma FirstTwo(maxJtis: nat, expiry: int, least: int)
    requires maxJtis > 1 && least < expiry
    ensures StateAt(NEW, maxJtis, Filling(0, expiry, least), 2) == State(Filled(0, least), LastSweep(least))
  {
    var calls := Filling(0, expiry, least);
    var empty: Used := map[];
    assert Unexpired(empty, least) == empty;
    assert |empty["j" := expiry]| == 1;
    assert StateAt(NEW, maxJtis, calls, 0) == NEW;
    assert StateAt(NEW, maxJtis, calls, 1) == State(map["j" := expiry], LastSweep(least));
  }

  /** A new store forgets the id too soon at the ceiling as well, within a second and with no sweep
      due: it sheds what has expired when the next id comes. */
  lemma CeilingForgets(maxJtis: nat, expiry: int, least: int)
    requires maxJtis > 1 && least < expiry
    ensures var calls := Filling(maxJtis - 1, expiry, least) + [Call("j", expiry, least)];
            && |calls| == maxJtis + 2 && calls[0].expiry == expiry && calls[maxJtis + 1].now < expiry && InOrder(calls)
            && FreshTwice(NEW, maxJtis, calls, 0, maxJtis + 1) && NoneEarlier(calls, 0, maxJtis + 1, least)
  {
    hide StateAt, Filling, Filled;
    var filling, again := Filling(maxJtis - 1, expiry, least), Call("j", expiry, least);
    FillingCalls(maxJtis - 1, expiry, least);
    FillingFills(maxJtis, maxJtis - 1, expiry, least);
    StateOfPrefix(NEW, maxJtis, filling, [again], maxJtis + 1);
    StateAtStart(NEW, maxJtis, filling + [again]);
    FilledKeys(maxJtis - 1, least);
    var empty: Used := map[];
    assert Unexpired(Filled(maxJtis - 1, least), least) == empty && Unexpired(empty, least) == empty;
  }

  lemma StateAtStart(start: State, maxJtis: nat, calls: seq<Call>)
    ensures StateAt(start, maxJtis, calls, 0) == start
  {
  }

  /** Replay protection lasts until the expiry, in all runs of a new store, exactly when no earlier
      expiry is presented for the id in between, or the ceiling is a single id; and then it lasts
      from every state. */
  lemma NeverFreshEarlyExactly(maxJtis: nat, expiry: int, least: int)
    ensures NeverFreshEarly(NEW, maxJtis, expiry, least) <==> least >= expiry || maxJtis <= 1
    ensures least >= expiry || maxJtis <= 1 ==> forall start :: NeverFreshEarly(start, maxJtis, expiry, least)
  {
    hide FreshTwice;
    if least >= expiry || maxJtis <= 1 {
      forall start: State, calls: seq<Call>, i: nat, j: nat |
        i < j < |calls| && InOrder(calls) && FreshTwice(start, maxJtis, calls, i, j) && calls[i].expiry == expiry
        && NoneEarlier(calls, i, j, least)
        ensures calls[j].now >= expiry
      {
        if maxJtis <= 1 {
          CeilingOfOne(start, maxJtis, calls, i, j);
        } else {
          FreshTwiceOnlyAfterExpiry(start, maxJtis, calls, i, j);
        }
      }
    } else {
      CeilingForgets(maxJtis, expiry, least);
    }
  }
}
