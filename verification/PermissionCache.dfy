/** The TTL permission cache of `src/rbac/cache.rs`: decisions per subject and permission, each
    with its own expiry, and a cap enforced by evicting the entries closest to expiry. */
module PermissionCache {
  import opened Collections
  import opened Ordering
  import opened Wrappers

  /** Subject id and permission name. */
  type Key = (string, string)

  datatype Entry = Entry(granted: bool, expiresAt: int)

  type Cache = map<Key, Entry>

  /** What the eviction heap holds: an expiry and its key, in lexicographic order. */
  type Pair = (int, Key)

  predicate PairLess(a: Pair, b: Pair) {
    a.0 < b.0 || (a.0 == b.0 && KeyLess(a.1, b.1))
  }

  predicate KeyLess(a: Key, b: Key) {
    Less(a.0, b.0) || (a.0 == b.0 && Less(a.1, b.1))
  }

  lemma PairLessTotal(a: Pair, b: Pair)
    ensures PairLess(a, b) || a == b || PairLess(b, a)
    ensures !(PairLess(a, b) && PairLess(b, a)) && !PairLess(a, a)
  {
    LessTotal(a.1.0, b.1.0);
    LessTotal(a.1.1, b.1.1);
    LessTotal(a.1.0, a.1.0);
    LessTotal(a.1.1, a.1.1);
  }

  lemma PairLessTransitive(a: Pair, b: Pair, c: Pair)
    requires PairLess(a, b) && PairLess(b, c)
    ensures PairLess(a, c)
  {
    if Less(a.1.0, b.1.0) && Less(b.1.0, c.1.0) {
      LessTransitive(a.1.0, b.1.0, c.1.0);
    }
    if Less(a.1.1, b.1.1) && Less(b.1.1, c.1.1) {
      LessTransitive(a.1.1, b.1.1, c.1.1);
    }
  }

  // ---------- the n smallest elements of a finite set of pairs ----------

  /** How many elements of `s` come before `p`. */
  ghost function Rank(s: set<Pair>, p: Pair): nat { |set q | q in s && PairLess(q, p)| }

  ghost function Smallest(s: set<Pair>, n: nat): set<Pair> { set p | p in s && Rank(s, p) < n }

  ghost predicate Initial(d: set<Pair>, s: set<Pair>) {
    d <= s && forall p, q :: p in d && q in s - d ==> PairLess(p, q)
  }

  /** A part that lies below everything else in the set consists of its |d| smallest elements. */
  lemma InitialIsSmallest(d: set<Pair>, s: set<Pair>)
    requires Initial(d, s)
    ensures d == Smallest(s, |d|)
  {
    forall p | p in s ensures p in d <==> Rank(s, p) < |d| {
      var before := set q | q in s && PairLess(q, p);
      if p in d {
        forall q | q in before ensures q in d - {p} {
          PairLessTotal(q, p);
        }
        SubsetSize(before, d - {p});
      } else {
        SubsetSize(d, before);
      }
    }
  }

  ghost predicate IsGreatest(p: Pair, s: set<Pair>) {
    p in s && forall q :: q in s ==> q == p || PairLess(q, p)
  }

  lemma GreatestExists(s: set<Pair>) returns (p: Pair)
    requires s != {}
    ensures IsGreatest(p, s)
  {
    p :| p in s;
    if s != {p} {
      var r := GreatestExists(s - {p});
      PairLessTotal(p, r);
      if PairLess(p, r) {
        p := r;
      } else {
        forall q | q in s && q != p ensures PairLess(q, p) {
          if q != r {
            PairLessTransitive(q, r, p);
          }
        }
      }
    }
  }

  /** The n smallest are n in number, and lie below the rest. */
  lemma {:induction false} SmallestOfSet(s: set<Pair>, n: nat)
    requires n <= |s|
    ensures |Smallest(s, n)| == n && Initial(Smallest(s, n), s)
    decreases |s| - n
  {
    var d: set<Pair>;
    if n == |s| {
      d := s;
    } else {
      SmallestOfSet(s, n + 1);
      var more := Smallest(s, n + 1);
      var top := GreatestExists(more);
      d := more - {top};
    }
    InitialIsSmallest(d, s);
  }

  // ---------- one call, on values ----------

  function Live(cache: Cache, now: int): Cache {
    map k | k in cache && now < cache[k].expiresAt :: cache[k]
  }

  function PairOf(cache: Cache, k: Key): Pair
    requires k in cache
  {
    (cache[k].expiresAt, k)
  }

  function Pairs(cache: Cache): set<Pair> { set k | k in cache :: PairOf(cache, k) }

  /** Keys of the `n` entries closest to expiry, ties broken by key. */
  ghost function ClosestToExpiry(cache: Cache, n: nat): set<Key> {
    set k | k in cache && PairOf(cache, k) in Smallest(Pairs(cache), n)
  }

  /** The cache after the cap is enforced at `now`. */
  ghost function Capped(cache: Cache, maxEntries: nat, now: int): Cache {
    if |cache| <= maxEntries then cache
    else
      var live := Live(cache, now);
      if |live| <= maxEntries then live else live - ClosestToExpiry(live, |live| - maxEntries)
  }

  lemma CappedCases(cache: Cache, maxEntries: nat, now: int)
    ensures |cache| <= maxEntries ==> Capped(cache, maxEntries, now) == cache
    ensures |cache| > maxEntries && |Live(cache, now)| <= maxEntries
            ==> Capped(cache, maxEntries, now) == Live(cache, now)
    ensures |Live(cache, now)| > maxEntries ==>
              Capped(cache, maxEntries, now)
              == Live(cache, now) - ClosestToExpiry(Live(cache, now), |Live(cache, now)| - maxEntries)
  {
    SubsetSize(Live(cache, now).Keys, cache.Keys);
  }

  function Lookup(cache: Cache, key: Key, now: int): Option<bool> {
    if key in cache && now < cache[key].expiresAt then Some(cache[key].granted) else None
  }

  function WithoutSubject(cache: Cache, subject: string): Cache {
    map k | k in cache && k.0 != subject :: cache[k]
  }

  class TtlPermissionCache {
    const maxEntries: nat
    const ttl: nat
    var cache: Cache

    constructor (ttl: nat, maxEntries: nat)
      ensures this.ttl == ttl && this.maxEntries == maxEntries && cache == map[]
    {
      this.ttl := ttl;
      this.maxEntries := maxEntries;
      cache := map[];
    }

    method Get(subject: string, permission: string, now: int) returns (r: Option<bool>)
      ensures r == Lookup(cache, (subject, permission), now)
      ensures r.Some? <==> (subject, permission) in cache && now < cache[(subject, permission)].expiresAt
      ensures r.Some? ==> r.value == cache[(subject, permission)].granted
    {
      var key := (subject, permission);
      if key in cache {
        if now < cache[key].expiresAt {
          return Some(cache[key].granted);
        }
      }
      return None;
    }

    /** The clock is read when an old entry is looked at, when the new one is made and when the
        cache is swept. */
    method Set(subject: string, permission: string, granted: bool, seenAt: int, setAt: int, sweptAt: int)
      modifies this`cache
      ensures cache == Capped(old(cache)[(subject, permission) := Entry(granted, setAt + ttl)], maxEntries, sweptAt)
      ensures |cache| <= maxEntries
      ensures var all := old(cache)[(subject, permission) := Entry(granted, setAt + ttl)];
              |all| <= maxEntries ==> cache == all
      ensures (subject, permission) in cache ==> cache[(subject, permission)] == Entry(granted, setAt + ttl)
      ensures forall k :: k in cache && k != (subject, permission) ==> k in old(cache) && cache[k] == old(cache)[k]
    {
      hide *;
      var key := (subject, permission);
      var entry := Entry(granted, setAt + ttl);
      CapIsMet(cache[key := entry], maxEntries, sweptAt);
      if key in cache && seenAt >= cache[key].expiresAt {
        InsertReplaces(cache, key, entry);
        cache := cache - {key};
      }
      cache := cache[key := entry];
      EnforceCap(sweptAt);
    }

    method EnforceCap(now: int)
      modifies this`cache
      ensures cache == Capped(old(cache), maxEntries, now)
    {
      hide Live, ClosestToExpiry;
      if |cache| > maxEntries {
        cache := Live(cache, now);
        if |cache| > maxEntries {
          EvictClosest(|cache| - maxEntries);
        }
      }
    }

    /** The entries closest to expiry go. */
    method EvictClosest(excess: nat)
      requires excess <= |cache|
      modifies this`cache
      ensures cache == old(cache) - ClosestToExpiry(old(cache), excess)
    {
      hide *;
      var heap := Select(excess);
      KeysOfSmallest(cache, excess);
      cache := cache - KeysOf(heap);
    }

    /** A heap that is never allowed more than `excess` pairs: each entry is pushed, and the
        greatest pair is popped when there is one too many. */
    method Select(excess: nat) returns (heap: set<Pair>)
      requires excess <= |cache|
      ensures heap == Smallest(Pairs(cache), excess)
    {
      hide *;
      heap := {};
      var rest := cache.Keys;
      HeapStarts(cache, excess);
      while rest != {}
        invariant rest <= cache.Keys && HeapHolds(heap, SeenPairs(cache, rest), excess)
        decreases |rest|
      {
        var key :| key in rest;
        HeapStep(heap, cache, rest, key, excess);
        heap := heap + {PairOf(cache, key)};
        rest := rest - {key};
        if |heap| > excess {
          var top := Greatest(heap);
          heap := heap - {top};
        }
      }
      HeapEnds(heap, cache, excess);
    }

    method InvalidateSubject(subject: string)
      modifies this`cache
      ensures cache == WithoutSubject(old(cache), subject)
      ensures forall k :: k in cache <==> k in old(cache) && k.0 != subject
      ensures forall k :: k in cache ==> cache[k] == old(cache)[k]
    {
      cache := map k | k in cache && k.0 != subject :: cache[k];
    }

    method InvalidateAll()
      modifies this`cache
      ensures cache == map[]
    {
      cache := map[];
    }
  }

  method Greatest(heap: set<Pair>) returns (top: Pair)
    requires heap != {}
    ensures IsGreatest(top, heap)
  {
    ghost var witnessed := GreatestExists(heap);
    top :| top in heap && forall q :: q in heap ==> q == top || PairLess(q, top);
  }

  /** Dropping an entry first makes no difference to replacing it. */
  lemma InsertReplaces(cache: Cache, key: Key, entry: Entry)
    ensures (cache - {key})[key := entry] == cache[key := entry]
  {
  }

  function KeysOf(heap: set<Pair>): set<Key> { set p | p in heap :: p.1 }

  ghost function SeenPairs(cache: Cache, rest: set<Key>): set<Pair> {
    set k | k in cache && k !in rest :: PairOf(cache, k)
  }

  /** The heap holds the smallest of the pairs seen, and all of them until it is full. */
  ghost predicate HeapHolds(heap: set<Pair>, seen: set<Pair>, excess: nat) {
    Initial(heap, seen) && |heap| <= excess && (|heap| < excess ==> heap == seen)
  }

  lemma HeapStarts(cache: Cache, excess: nat)
    ensures HeapHolds({}, SeenPairs(cache, cache.Keys), excess)
  {
    assert SeenPairs(cache, cache.Keys) == {};
  }

  lemma SeenStep(cache: Cache, rest: set<Key>, key: Key)
    requires key in cache && key in rest
    ensures SeenPairs(cache, rest - {key}) == SeenPairs(cache, rest) + {PairOf(cache, key)}
    ensures PairOf(cache, key) !in SeenPairs(cache, rest)
  {
    forall p ensures p in SeenPairs(cache, rest - {key}) <==> p in SeenPairs(cache, rest) || p == PairOf(cache, key) {
      if p in SeenPairs(cache, rest) || p == PairOf(cache, key) {
        assert p == PairOf(cache, p.1);
      }
    }
  }

  lemma HeapStep(heap: set<Pair>, cache: Cache, rest: set<Key>, key: Key, excess: nat)
    requires key in cache && key in rest && HeapHolds(heap, SeenPairs(cache, rest), excess)
    ensures var pushed := heap + {PairOf(cache, key)};
            && (|pushed| <= excess ==> HeapHolds(pushed, SeenPairs(cache, rest - {key}), excess))
            && (|pushed| > excess
                ==> forall top :: IsGreatest(top, pushed)
                                  ==> HeapHolds(pushed - {top}, SeenPairs(cache, rest - {key}), excess))
            && pushed != {}
  {
    hide SeenPairs, PairOf, Initial, PairLess, IsGreatest;
    var pair := PairOf(cache, key);
    var pushed := heap + {pair};
    SeenStep(cache, rest, key);
    AllSeenIsInitial(pushed);
    AlwaysWithin(heap, SeenPairs(cache, rest));
    assert |pushed| == |heap| + 1;
    if |pushed| > excess {
      forall top | IsGreatest(top, pushed) ensures HeapHolds(pushed - {top}, SeenPairs(cache, rest - {key}), excess) {
        PopKeepsInitial(heap, SeenPairs(cache, rest), pair, top);
      }
    }
  }

  lemma AlwaysWithin(d: set<Pair>, s: set<Pair>)
    requires Initial(d, s)
    ensures d <= s
  {
  }

  lemma AllSeenIsInitial(d: set<Pair>)
    ensures Initial(d, d)
  {
  }

  lemma HeapEnds(heap: set<Pair>, cache: Cache, excess: nat)
    requires HeapHolds(heap, SeenPairs(cache, {}), excess) && excess <= |cache|
    ensures heap == Smallest(Pairs(cache), excess)
  {
    hide Initial, Smallest;
    assert SeenPairs(cache, {}) == Pairs(cache);
    PairsSize(cache);
    InitialIsSmallest(heap, Pairs(cache));
  }

  lemma PopKeepsInitial(kept: set<Pair>, before: set<Pair>, pair: Pair, top: Pair)
    requires Initial(kept, before) && IsGreatest(top, kept + {pair})
    ensures Initial(kept + {pair} - {top}, before + {pair})
    ensures top in kept + {pair}
  {
    forall p, q | p in kept + {pair} - {top} && q in before + {pair} - (kept + {pair} - {top})
      ensures PairLess(p, q)
    {
      if q != top && p == pair && top != pair {
        PairLessTransitive(p, top, q);
      }
    }
  }

  lemma KeysOfSmallest(cache: Cache, n: nat)
    ensures KeysOf(Smallest(Pairs(cache), n)) == ClosestToExpiry(cache, n)
  {
    hide Rank;
    var chosen := Smallest(Pairs(cache), n);
    forall k ensures k in KeysOf(chosen) <==> k in ClosestToExpiry(cache, n) {
      if k in ClosestToExpiry(cache, n) {
        assert PairOf(cache, k) in chosen && PairOf(cache, k).1 == k;
      }
    }
  }

  lemma {:induction false} PairsSize(cache: Cache)
    ensures |Pairs(cache)| == |cache|
    decreases |cache|
  {
    if |cache| > 0 {
      var k :| k in cache;
      var smaller := cache - {k};
      MapMinus(cache, {k});
      PairsSize(smaller);
      forall p ensures p in Pairs(cache) <==> p in Pairs(smaller) || p == PairOf(cache, k) {
        if p in Pairs(cache) && p.1 != k {
          assert p == PairOf(smaller, p.1);
        }
        if p in Pairs(smaller) {
          assert p == PairOf(cache, p.1);
        }
      }
      assert Pairs(cache) == Pairs(smaller) + {PairOf(cache, k)};
      assert PairOf(cache, k) !in Pairs(smaller);
    }
  }

  lemma MapMinus<K, V>(m: map<K, V>, out: set<K>)
    requires out <= m.Keys
    ensures (m - out).Keys == m.Keys - out
    ensures |m - out| == |m| - |out|
  {
    assert (m - out).Keys == m.Keys - out;
    assert m.Keys == (m.Keys - out) + out;
  }

  // ---------- what the cap does ----------

  /** Key `a` is closer to expiry than key `b`. */
  predicate Sooner(cache: Cache, a: Key, b: Key)
    requires a in cache && b in cache
  {
    PairLess(PairOf(cache, a), PairOf(cache, b))
  }

  lemma ClosestSize(cache: Cache, n: nat)
    requires n <= |cache|
    ensures |ClosestToExpiry(cache, n)| == n && ClosestToExpiry(cache, n) <= cache.Keys
  {
    hide Rank, Initial, PairLess, Smallest;
    PairsSize(cache);
    SmallestOfSet(Pairs(cache), n);
    SmallestWithin(Pairs(cache), n);
    var chosen := map k | k in ClosestToExpiry(cache, n) :: cache[k];
    forall p ensures p in Pairs(chosen) <==> p in Smallest(Pairs(cache), n) {
      if p in Smallest(Pairs(cache), n) {
        assert p.1 in chosen && PairOf(chosen, p.1) == p;
      }
      if p in Pairs(chosen) {
        assert PairOf(cache, p.1) == p;
      }
    }
    assert Pairs(chosen) == Smallest(Pairs(cache), n);
    PairsSize(chosen);
    assert chosen.Keys == ClosestToExpiry(cache, n);
  }

  lemma SmallestWithin(s: set<Pair>, n: nat)
    ensures Smallest(s, n) <= s
  {
  }

  lemma ClosestAreSooner(cache: Cache, n: nat, k: Key, j: Key)
    requires n <= |cache| && k in ClosestToExpiry(cache, n) && j in cache && j !in ClosestToExpiry(cache, n)
    ensures Sooner(cache, k, j)
  {
    hide Smallest, PairLess;
    PairsSize(cache);
    SmallestOfSet(Pairs(cache), n);
    assert PairOf(cache, j) in Pairs(cache) - Smallest(Pairs(cache), n);
  }

  /** The cap is met, and every entry that is kept is unchanged. */
  lemma CapIsMet(cache: Cache, maxEntries: nat, now: int)
    ensures var after := Capped(cache, maxEntries, now);
            && |after| <= maxEntries
            && (forall k :: k in after ==> k in cache && after[k] == cache[k])
            && (|cache| <= maxEntries ==> after == cache)
            && (|Live(cache, now)| > maxEntries ==> |after| == maxEntries)
            && (|cache| > maxEntries ==> forall k :: k in after ==> now < cache[k].expiresAt)
  {
    hide *;
    CappedCases(cache, maxEntries, now);
    LiveKeeps(cache, now);
    var live := Live(cache, now);
    if |live| > maxEntries {
      CutDown(live, maxEntries);
    }
  }

  lemma LiveKeeps(cache: Cache, now: int)
    ensures |Live(cache, now)| <= |cache|
    ensures forall k :: k in Live(cache, now)
                        ==> k in cache && Live(cache, now)[k] == cache[k] && now < cache[k].expiresAt
  {
    SubsetSize(Live(cache, now).Keys, cache.Keys);
  }

  lemma CutDown(live: Cache, maxEntries: nat)
    requires |live| > maxEntries
    ensures var after := live - ClosestToExpiry(live, |live| - maxEntries);
            && |after| == maxEntries
            && forall k :: k in after ==> k in live && after[k] == live[k]
  {
    hide *;
    ClosestSize(live, |live| - maxEntries);
    MapMinus(live, ClosestToExpiry(live, |live| - maxEntries));
  }

  /** An unexpired entry goes only when the unexpired ones alone are too many, and each one that
      goes is closer to expiry than every entry that stays. */
  lemma CapEvictsOnlyTheClosest(cache: Cache, maxEntries: nat, now: int, k: Key)
    requires k in cache && now < cache[k].expiresAt && k !in Capped(cache, maxEntries, now)
    ensures |Live(cache, now)| > maxEntries
    ensures forall j :: j in Capped(cache, maxEntries, now) ==> j in cache && Sooner(cache, k, j)
    ensures forall j :: j in Capped(cache, maxEntries, now)
                        ==> cache[k].expiresAt < cache[j].expiresAt
                            || (cache[k].expiresAt == cache[j].expiresAt
                                && (Less(k.0, j.0) || (k.0 == j.0 && Less(k.1, j.1))))
  {
    hide ClosestToExpiry, Sooner;
    var live := Live(cache, now);
    var n := |live| - maxEntries;
    forall j | j in Capped(cache, maxEntries, now)
      ensures j in cache && Sooner(cache, k, j)
      ensures cache[k].expiresAt < cache[j].expiresAt
              || (cache[k].expiresAt == cache[j].expiresAt
                  && (Less(k.0, j.0) || (k.0 == j.0 && Less(k.1, j.1))))
    {
      ClosestAreSooner(live, n, k, j);
      SameSooner(live, cache, k, j);
      SoonerMeans(cache, k, j);
    }
  }

  lemma SoonerMeans(cache: Cache, k: Key, j: Key)
    requires k in cache && j in cache
    ensures Sooner(cache, k, j)
       <==> cache[k].expiresAt < cache[j].expiresAt
            || (cache[k].expiresAt == cache[j].expiresAt && (Less(k.0, j.0) || (k.0 == j.0 && Less(k.1, j.1))))
  {
  }

  lemma SameSooner(part: Cache, cache: Cache, k: Key, j: Key)
    requires k in part && j in part && k in cache && j in cache && part[k] == cache[k] && part[j] == cache[j]
    ensures Sooner(part, k, j) == Sooner(cache, k, j)
  {
  }

  /** On a clock that never runs back the decision just made is the last to expire, and it is
      evicted at once exactly when the cache is full of decisions made at the same instant whose
      keys are all greater. */
  lemma FreshDecisionLostExactly(cache: Cache, key: Key, entry: Entry, maxEntries: nat, now: int)
    requires |cache| <= maxEntries && now < entry.expiresAt
    requires forall k :: k in cache ==> cache[k].expiresAt <= entry.expiresAt
    ensures var all := cache[key := entry];
            key !in Capped(all, maxEntries, now) <==>
            && |Live(all, now)| > maxEntries
            && forall k :: k in cache && k != key && now < cache[k].expiresAt
                           ==> cache[k].expiresAt == entry.expiresAt
                               && (Less(key.0, k.0) || (key.0 == k.0 && Less(key.1, k.1)))
  {
    hide *;
    KeyLessMeans(key);
    var all := cache[key := entry];
    LiveOf(cache, key, entry, now);
    LostIfClosest(all, key, maxEntries, now);
    TheClosest(Live(all, now), key);
    AllLater(cache, key, entry, now);
  }

  lemma KeyLessMeans(key: Key)
    ensures forall k: Key :: KeyLess(key, k) <==> Less(key.0, k.0) || (key.0 == k.0 && Less(key.1, k.1))
  {
  }

  lemma LostIfClosest(all: Cache, key: Key, maxEntries: nat, now: int)
    requires key in Live(all, now) && |Live(all, now)| <= maxEntries + 1
    ensures key !in Capped(all, maxEntries, now)
       <==> |Live(all, now)| > maxEntries && key in ClosestToExpiry(Live(all, now), 1)
  {
    hide Capped, ClosestToExpiry;
    CappedCases(all, maxEntries, now);
  }

  lemma AllLater(cache: Cache, key: Key, entry: Entry, now: int)
    requires forall k :: k in cache ==> cache[k].expiresAt <= entry.expiresAt
    requires key in Live(cache[key := entry], now)
    ensures var live := Live(cache[key := entry], now);
            (forall k :: k in live && k != key ==> Sooner(live, key, k))
            <==> forall k :: k in cache && k != key && now < cache[k].expiresAt
                             ==> cache[k].expiresAt == entry.expiresAt && KeyLess(key, k)
  {
    hide KeyLess;
    var live := Live(cache[key := entry], now);
    if forall k :: k in live && k != key ==> Sooner(live, key, k) {
      forall k | k in cache && k != key && now < cache[k].expiresAt
        ensures cache[k].expiresAt == entry.expiresAt && KeyLess(key, k) {
        assert k in live;
      }
    }
  }

  lemma LiveOf(cache: Cache, key: Key, entry: Entry, now: int)
    requires now < entry.expiresAt
    ensures var live := Live(cache[key := entry], now);
            && key in live && live[key] == entry && |live| <= |cache| + 1
            && (forall k :: k != key ==> (k in live <==> k in cache && now < cache[k].expiresAt))
            && (forall k :: k in live && k != key ==> live[k] == cache[k])
  {
    var live := Live(cache[key := entry], now);
    SubsetSize(live.Keys, cache.Keys + {key});
  }

  lemma TheClosest(live: Cache, key: Key)
    requires key in live
    ensures |live| >= 1
    ensures key in ClosestToExpiry(live, 1) <==> forall k :: k in live && k != key ==> Sooner(live, key, k)
  {
    hide ClosestToExpiry, PairLess;
    SubsetSize({key}, live.Keys);
    var out := ClosestToExpiry(live, 1);
    ClosestSize(live, 1);
    OnlyElement(out);
    if key in out {
      forall k | k in live && k != key ensures Sooner(live, key, k) {
        ClosestAreSooner(live, 1, key, k);
      }
    } else {
      var x :| x in out;
      ClosestAreSooner(live, 1, x, key);
      PairLessTotal(PairOf(live, x), PairOf(live, key));
    }
  }

  lemma OnlyElement<T>(s: set<T>)
    requires |s| == 1
    ensures exists x :: x in s
    ensures forall x, y :: x in s && y in s ==> x == y
  {
    var x :| x in s;
    assert |s - {x}| == 0;
  }

  lemma NonEmpty(m: Cache)
    requires |m| > 0
    ensures exists k :: k in m
  {
    var k :| k in m.Keys;
    assert k in m;
  }

  /** On a tie it does not: of two decisions made at one instant in a cache of one, the one with
      the greater key stays, even when the other is the newer. */
  lemma FreshDecisionLostOnTie(now: int, ttl: nat)
    requires ttl > 0
    ensures var first: Cache := map[("b", "p") := Entry(true, now + ttl)];
            Capped(first[("a", "p") := Entry(true, now + ttl)], 1, now) == first
  {
    hide Capped, Live;
    var b, a: Key := ("b", "p"), ("a", "p");
    var first: Cache := map[b := Entry(true, now + ttl)];
    var both := first[a := Entry(true, now + ttl)];
    var after := Capped(both, 1, now);
    TwoOverOne(both, a, b, now);
    CapIsMet(both, 1, now);
    if b !in after {
      CapEvictsOnlyTheClosest(both, 1, now, b);
      NonEmpty(after);
    }
    if a in after {
      SubsetSize({a, b}, after.Keys);
    }
    assert after == first;
  }

  lemma TwoOverOne(both: Cache, a: Key, b: Key, now: int)
    requires a != b && both.Keys == {a, b} && now < both[a].expiresAt && now < both[b].expiresAt
    ensures |Live(both, now)| == 2
  {
    assert Live(both, now) == both;
    assert |{a, b}| == 2;
  }
}
