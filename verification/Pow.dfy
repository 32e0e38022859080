/** Proof of work (`src/auth/passport/pow.rs`): the leading zero bits of a digest, and the
    single-use store of challenge seeds.  The hash is a parameter. */
module Pow {
  import opened Bytes

  type Digest = d: seq<Byte> | |d| == 32 witness seq(32, _ => 0)

  function Pow2(n: nat): (p: nat)
    ensures p > 0
  {
    if n == 0 then 1 else 2 * Pow2(n - 1)
  }

  lemma {:induction false} Pow2Monotone(a: nat, b: nat)
    requires a <= b
    ensures Pow2(a) <= Pow2(b)
    decreases b
  {
    if a < b {
      Pow2Monotone(a, b - 1);
    }
  }

  lemma {:induction false} Pow2Sum(a: nat, b: nat)
    ensures Pow2(a + b) == Pow2(a) * Pow2(b)
  {
    if a > 0 {
      Pow2Sum(a - 1, b);
      Doubled(Pow2(a - 1), Pow2(b));
    }
  }

  lemma Doubled(x: int, y: int)
    ensures (2 * x) * y == 2 * (x * y)
  {
  }

  // ---------- leading zero bits ----------

  function LeadingZeros(b: Byte): (z: nat)
    ensures z <= 8
  {
    if b >= 128 then 0 else if b >= 64 then 1 else if b >= 32 then 2 else if b >= 16 then 3
    else if b >= 8 then 4 else if b >= 4 then 5 else if b >= 2 then 6 else if b >= 1 then 7 else 8
  }

  /** The first byte counts for as much as its place says. */
  lemma {:induction false} BigEndianSplit(h: seq<Byte>)
    requires h != []
    ensures BigEndian(h) == h[0] * Pow2(8 * (|h| - 1)) + BigEndian(h[1..])
  {
    if |h| == 1 {
      assert h[..0] == [] && h[1..] == [];
    } else {
      var front := h[..|h| - 1];
      BigEndianSplit(front);
      assert h[1..][..|h| - 2] == front[1..];
      Pow2Of8();
      Pow2Sum(8, 8 * (|h| - 2));
      Shifted(h[0], Pow2(8 * (|h| - 2)), BigEndian(front[1..]));
    }
  }

  lemma Shifted(first: int, unit: int, rest: int)
    ensures (first * unit + rest) * 256 == first * (256 * unit) + rest * 256
  {
  }

  lemma {:induction false} BigEndianBelow(h: seq<Byte>)
    ensures BigEndian(h) < Pow2(8 * |h|)
  {
    if h != [] {
      var unit := Pow2(8 * (|h| - 1));
      BigEndianSplit(h);
      BigEndianBelow(h[1..]);
      Pow2Of8();
      Pow2Sum(8, 8 * (|h| - 1));
      TimesUpTo(h[0], unit);
    }
  }

  lemma Pow2Of8()
    ensures Pow2(8) == 256
  {
    assert Pow2(4) == 16;
  }

  lemma TimesUpTo(b: Byte, unit: nat)
    ensures b * unit + unit <= 256 * unit
  {
    var n: int := b;
    Scaled(n + 1, 256, unit);
    Distribute(n, unit);
  }

  lemma Scaled(a: nat, b: nat, unit: nat)
    requires a <= b
    ensures a * unit <= b * unit
  {
  }

  /** `count` of the 8|h| bits are zero before the first one. */
  ghost predicate IsZeroPrefix(h: seq<Byte>, count: nat) {
    && count <= 8 * |h| && BigEndian(h) < Pow2(8 * |h| - count)
    && (count < 8 * |h| ==> BigEndian(h) >= Pow2(8 * |h| - count - 1))
  }

  lemma {:induction false} ZerosInFront(h: seq<Byte>, i: nat)
    requires i <= |h| && forall j :: 0 <= j < i ==> h[j] == 0
    ensures BigEndian(h) == BigEndian(h[i..])
  {
    if i > 0 {
      BigEndianSplit(h);
      ZerosInFront(h[1..], i - 1);
      assert h[1..][i - 1..] == h[i..];
    } else {
      assert h[0..] == h;
    }
  }

  /** The first byte that is not zero settles how large the number is. */
  lemma FirstNonZero(h: seq<Byte>)
    requires h != [] && h[0] != 0
    ensures IsZeroPrefix(h, LeadingZeros(h[0]))
  {
    hide Pow2, LeadingZeros, BigEndian;
    BigEndianBelow(h[1..]);
    BigEndianSplit(h);
    ByteBounds(h[0]);
    PlaceBounds(h[0], LeadingZeros(h[0]), 8 * (|h| - 1), BigEndian(h[1..]));
  }

  lemma PlaceBounds(b: nat, z: nat, m: nat, rest: nat)
    requires z <= 7 && Pow2(7 - z) <= b < Pow2(8 - z) && rest < Pow2(m)
    ensures Pow2(m + 7 - z) <= b * Pow2(m) + rest < Pow2(m + 8 - z)
  {
    hide Pow2;
    var low, high, unit := Pow2(7 - z), Pow2(8 - z), Pow2(m);
    Pow2Sum(8 - z, m);
    Pow2Sum(7 - z, m);
    Scaled(low, b, unit);
    Scaled(b + 1, high, unit);
    Distribute(b, unit);
  }

  lemma Distribute(b: nat, unit: nat)
    ensures (b + 1) * unit == b * unit + unit
  {
  }

  lemma ByteBounds(b: Byte)
    requires b != 0
    ensures LeadingZeros(b) <= 7
    ensures Pow2(7 - LeadingZeros(b)) <= b < Pow2(8 - LeadingZeros(b))
  {
    Pow2Of8();
    assert Pow2(1) == 2 && Pow2(2) == 4 && Pow2(3) == 8 && Pow2(4) == 16;
    assert Pow2(5) == 32 && Pow2(6) == 64 && Pow2(7) == 128;
  }

  ghost predicate BelowBound(h: seq<Byte>, k: nat)
    requires k <= 8 * |h|
  {
    BigEndian(h) < Pow2(8 * |h| - k)
  }

  /** At least k leading zeros means a number below 2^(8|h| - k), and the reverse. */
  lemma ZeroPrefixIsBound(h: seq<Byte>, count: nat, k: nat)
    requires IsZeroPrefix(h, count) && k <= 8 * |h|
    ensures count >= k <==> BelowBound(h, k)
  {
    if count >= k {
      Pow2Monotone(8 * |h| - count, 8 * |h| - k);
    } else {
      Pow2Monotone(8 * |h| - k, 8 * |h| - count - 1);
    }
  }

  function Place(j: nat): (p: nat)
    ensures p > 0
  {
    if j == 0 then 128 else if j == 1 then 64 else if j == 2 then 32 else if j == 3 then 16
    else if j == 4 then 8 else if j == 5 then 4 else if j == 6 then 2 else 1
  }

  /** Bit number `i` of the hash, the highest of the first byte being number 0. */
  function Bit(h: seq<Byte>, i: nat): nat
    requires i < 8 * |h|
  {
    h[i / 8] / Place(i % 8) % 2
  }

  lemma ByteBits(b: Byte)
    ensures forall j: nat :: j < LeadingZeros(b) ==> b / Place(j) % 2 == 0
    ensures LeadingZeros(b) < 8 ==> b / Place(LeadingZeros(b)) % 2 == 1
  {
  }

  /** The bits in front of number `count` are zeros, and that one is not. */
  ghost predicate ZerosThenOne(h: seq<Byte>, count: nat) {
    && count <= 8 * |h|
    && (forall i: nat :: i < count ==> Bit(h, i) == 0)
    && (count < 8 * |h| ==> Bit(h, count) == 1)
  }

  lemma BitsInFront(h: seq<Byte>, i: nat, count: nat, found: bool)
    requires i <= |h| && forall j :: 0 <= j < i ==> h[j] == 0
    requires if found then i < |h| && h[i] != 0 && count == 8 * i + LeadingZeros(h[i]) else i == |h| && count == 8 * i
    ensures ZerosThenOne(h, count)
  {
    hide LeadingZeros, Place;
    if found {
      SomeBit(h[i]);
      ByteBits(h[i]);
    }
    forall k: nat | k < count ensures Bit(h, k) == 0 {
      if k >= 8 * i {
        assert k / 8 == i && k % 8 == k - 8 * i;
      }
    }
    assert count < 8 * |h| ==> count / 8 == i && count % 8 == LeadingZeros(h[i]);
  }

  lemma SomeBit(b: Byte)
    ensures b != 0 ==> LeadingZeros(b) < 8
  {
  }

  method LeadingZeroBits(hash: seq<Byte>) returns (count: nat)
    ensures ZerosThenOne(hash, count)
    ensures count <= 8 * |hash|
    ensures forall k :: 0 <= k <= 8 * |hash| ==> (count >= k <==> BelowBound(hash, k))
  {
    hide *;
    count := 0;
    var i := 0;
    ghost var found := false;
    while i < |hash|
      invariant 0 <= i <= |hash| && count == 8 * i
      invariant forall j :: 0 <= j < i ==> hash[j] == 0
    {
      if hash[i] == 0 {
        count := count + 8;
      } else {
        count := count + LeadingZeros(hash[i]);
        found := true;
        break;
      }
      i := i + 1;
    }
    PrefixFrom(hash, i, count, found);
    BitsInFront(hash, i, count, found);
    forall k | 0 <= k <= 8 * |hash| ensures count >= k <==> BelowBound(hash, k) {
      ZeroPrefixIsBound(hash, count, k);
    }
  }

  lemma PrefixFrom(h: seq<Byte>, i: nat, count: nat, found: bool)
    requires i <= |h| && forall j :: 0 <= j < i ==> h[j] == 0
    requires if found then i < |h| && h[i] != 0 && count == 8 * i + LeadingZeros(h[i]) else i == |h| && count == 8 * i
    ensures count <= 8 * |h| && IsZeroPrefix(h, count)
  {
    hide LeadingZeros;
    ZerosInFront(h, i);
    if found {
      FirstNonZero(h[i..]);
      assert 8 * |h| - count == 8 * |h[i..]| - LeadingZeros(h[i]);
    }
  }

  // ---------- challenges ----------

  datatype Result = Ok | Err(error: PowError)

  datatype PowError = InvalidBits | InvalidSeed | Expired | InsufficientWork

  /** Live seeds and when they were issued. */
  type Seeds = map<string, int>

  ghost predicate KeepsNewest(seeds: Seeds, kept: Seeds, n: nat) {
    && (forall s :: s in kept ==> s in seeds && kept[s] == seeds[s])
    && |kept| == (if |seeds| < n then |seeds| else n)
    && (forall s, o :: s in kept && o in seeds && o !in kept ==> seeds[o] <= seeds[s])
  }

  function Live(seeds: Seeds, ttl: nat, now: int): Seeds {
    map s | s in seeds && now - seeds[s] <= ttl :: seeds[s]
  }

  /** What issuing may do: prune, cut down to the newest `cap` when there are that many, add the
      new seed. */
  ghost predicate Issues(before: Seeds, after: Seeds, ttl: nat, cap: nat, seed: string, now: int) {
    var live := Live(before, ttl, now);
    exists kept :: KeepsNewest(live, kept, cap) && after == kept[seed := now]
  }

  ghost function Verdict(hashOf: (string, nat) -> Digest, seeds: Seeds, ttl: nat, seed: string, counter: nat, bits: nat,
                         now: int): Result
  {
    if seed !in seeds then Err(InvalidSeed)
    else if now - seeds[seed] > ttl then Err(Expired)
    else if bits <= 256 && BelowBound(hashOf(seed, counter), bits) then Ok
    else Err(InsufficientWork)
  }

  class PowChallenge {
    const ttl: nat
    const cap: nat
    const hashOf: (string, nat) -> Digest
    var seeds: Seeds

    constructor (ttl: nat, cap: nat, hashOf: (string, nat) -> Digest)
      ensures this.ttl == ttl && this.cap == cap && this.hashOf == hashOf && seeds == map[]
    {
      this.ttl := ttl;
      this.cap := cap;
      this.hashOf := hashOf;
      seeds := map[];
    }

    method Issue(bits: nat, seed: string, now: int) returns (r: Result)
      modifies this`seeds
      ensures r == if 4 <= bits <= 32 then Ok else Err(InvalidBits)
      ensures if r == Ok then Issues(old(seeds), seeds, ttl, cap, seed, now) else seeds == old(seeds)
      ensures r == Ok ==> seed in seeds && seeds[seed] == now
      ensures r == Ok ==> forall s :: s in seeds && s != seed
                                      ==> s in old(seeds) && now - old(seeds)[s] <= ttl && seeds[s] == old(seeds)[s]
    {
      hide KeepsNewest;
      if !(4 <= bits <= 32) {
        return Err(InvalidBits);
      }
      seeds := Live(seeds, ttl, now);
      ghost var live := seeds;
      if |seeds| >= cap {
        seeds := Newest(seeds, cap);
      } else {
        AllAreNewest(live, cap);
      }
      ghost var kept := seeds;
      KeptAreLive(old(seeds), kept, ttl, cap, now);
      assert KeepsNewest(live, kept, cap);
      seeds := seeds[seed := now];
      return Ok;
    }

    /** The seed is spent whatever comes of the attempt. */
    method Verify(seed: string, counter: nat, bits: nat, now: int) returns (r: Result)
      modifies this`seeds
      ensures r == Verdict(hashOf, old(seeds), ttl, seed, counter, bits, now)
      ensures seeds == old(seeds) - {seed}
      ensures if seed !in old(seeds) then r == Err(InvalidSeed)
              else if now - old(seeds)[seed] > ttl then r == Err(Expired)
              else if bits <= 256 && forall i: nat :: i < bits ==> Bit(hashOf(seed, counter), i) == 0 then r == Ok
              else r == Err(InsufficientWork)
    {
      hide BelowBound, Bit;
      if seed !in seeds {
        return Err(InvalidSeed);
      }
      var issuedAt := seeds[seed];
      seeds := seeds - {seed};
      if now - issuedAt > ttl {
        return Err(Expired);
      }
      var hash := hashOf(seed, counter);
      var zeros := LeadingZeroBits(hash);
      if zeros < bits {
        return Err(InsufficientWork);
      }
      return Ok;
    }
  }

  lemma KeptAreLive(before: Seeds, kept: Seeds, ttl: nat, cap: nat, now: int)
    requires KeepsNewest(Live(before, ttl, now), kept, cap)
    ensures forall s :: s in kept ==> s in before && now - before[s] <= ttl && kept[s] == before[s]
  {
  }

  /** A live seed is dropped only when there are as many younger ones, or ones as old, as the
      capacity: none while the live ones are fewer. */
  lemma OnlyTheOldestGo(before: Seeds, after: Seeds, ttl: nat, cap: nat, seed: string, now: int, gone: string)
    requires Issues(before, after, ttl, cap, seed, now) && gone != seed
    requires gone in before && now - before[gone] <= ttl && gone !in after
    ensures |Live(before, ttl, now)| >= cap
    ensures forall s :: s in after && s != seed ==> before[gone] <= after[s]
    ensures |after| >= cap
  {
    var live := Live(before, ttl, now);
    var kept :| KeepsNewest(live, kept, cap) && after == kept[seed := now];
    if |live| < cap {
      SameSize(live, kept);
    }
    assert after.Keys == kept.Keys + {seed};
  }

  lemma SameSize(seeds: Seeds, kept: Seeds)
    requires forall s :: s in kept ==> s in seeds
    ensures |kept| == |seeds| ==> kept.Keys == seeds.Keys
  {
    if kept.Keys != seeds.Keys {
      var s :| s in seeds && s !in kept;
      assert kept.Keys <= seeds.Keys - {s};
      assert seeds.Keys - {s} == kept.Keys + (seeds.Keys - {s} - kept.Keys);
    }
  }

  lemma AllAreNewest(seeds: Seeds, cap: nat)
    requires |seeds| <= cap
    ensures KeepsNewest(seeds, seeds, cap)
  {
  }

  lemma NewestExists(seeds: Seeds, rest: set<string>) returns (s: string)
    requires rest != {} && rest <= seeds.Keys
    ensures s in rest && forall o :: o in rest ==> seeds[o] <= seeds[s]
  {
    s :| s in rest;
    if rest != {s} {
      var t := NewestExists(seeds, rest - {s});
      if seeds[s] < seeds[t] {
        s := t;
      }
    }
  }

  /** The youngest have been taken and those in `rest` have not. */
  ghost predicate Taken(seeds: Seeds, kept: Seeds, rest: set<string>) {
    && rest <= seeds.Keys
    && kept.Keys == seeds.Keys - rest
    && |kept| + |rest| == |seeds|
    && (forall s :: s in kept ==> kept[s] == seeds[s])
    && (forall s, o :: s in kept && o in rest ==> seeds[o] <= seeds[s])
  }

  lemma TakenStep(seeds: Seeds, kept: Seeds, rest: set<string>, s: string)
    requires Taken(seeds, kept, rest) && s in rest && forall o :: o in rest ==> seeds[o] <= seeds[s]
    ensures Taken(seeds, kept[s := seeds[s]], rest - {s}) && |kept[s := seeds[s]]| == |kept| + 1
  {
    OneMoreKey(kept, s, seeds[s]);
  }

  /** Taken off the end of the list sorted by age; which of equally old seeds go first is open. */
  method Newest(seeds: Seeds, n: nat) returns (kept: Seeds)
    ensures KeepsNewest(seeds, kept, n)
  {
    kept := map[];
    var rest := seeds.Keys;
    while rest != {} && |kept| < n
      invariant Taken(seeds, kept, rest) && |kept| <= n
      decreases |rest|
    {
      ghost var witnessed := NewestExists(seeds, rest);
      var s :| s in rest && forall o :: o in rest ==> seeds[o] <= seeds[s];
      TakenStep(seeds, kept, rest, s);
      kept := kept[s := seeds[s]];
      rest := rest - {s};
    }
  }

  /** The capacity is overrun by one: once there are `cap` live seeds, every issue leaves
      `cap` + 1. */
  lemma StoreHoldsOneMore(before: Seeds, after: Seeds, ttl: nat, cap: nat, seed: string, now: int)
    requires Issues(before, after, ttl, cap, seed, now) && seed !in before
    ensures |after| == if |Live(before, ttl, now)| >= cap then cap + 1 else |Live(before, ttl, now)| + 1
  {
    var live := Live(before, ttl, now);
    hide Live;
    assert seed !in live by {
      LiveIsPart(before, ttl, now);
    }
    var kept :| KeepsNewest(live, kept, cap) && after == kept[seed := now];
    OneMoreKey(kept, seed, now);
  }

  lemma LiveIsPart(seeds: Seeds, ttl: nat, now: int)
    ensures Live(seeds, ttl, now).Keys <= seeds.Keys
  {
  }

  lemma OneMoreKey(seeds: Seeds, seed: string, now: int)
    requires seed !in seeds
    ensures |seeds[seed := now]| == |seeds| + 1
  {
    assert seeds[seed := now].Keys == seeds.Keys + {seed};
  }

  // ---------- runs ----------

  datatype Event = Issued(seed: string, now: int) | Tried(seed: string, counter: nat, bits: nat, now: int)

  /** `states[i]` are the seeds before event i; every issued seed is a new one. */
  ghost predicate Run(ttl: nat, cap: nat, events: seq<Event>, states: seq<Seeds>) {
    && |states| == |events| + 1 && states[0] == map[]
    && (forall i :: 0 <= i < |events| ==> Stepped(ttl, cap, events[i], states[i], states[i + 1]))
    && (forall i, j :: 0 <= i < j < |events| && events[j].Issued? ==> events[i].seed != events[j].seed)
  }

  ghost predicate Stepped(ttl: nat, cap: nat, e: Event, before: Seeds, after: Seeds) {
    match e
    case Issued(seed, now) => Issues(before, after, ttl, cap, seed, now)
    case Tried(seed, _, _, _) => after == before - {seed}
  }

  lemma {:induction false} SeedGone(ttl: nat, cap: nat, events: seq<Event>, states: seq<Seeds>, i: nat, j: nat)
    requires Run(ttl, cap, events, states) && i < j <= |events| && events[i].Tried?
    ensures events[i].seed !in states[j]
    decreases j
  {
    assert Stepped(ttl, cap, events[j - 1], states[j - 1], states[j]);
    if i + 1 < j {
      SeedGone(ttl, cap, events, states, i, j - 1);
    }
  }

  /** A seed is good for one attempt: after it every other attempt finds no seed. */
  lemma SeedsAreSingleUse(hashOf: (string, nat) -> Digest, ttl: nat, cap: nat, events: seq<Event>, states: seq<Seeds>,
                          i: nat, j: nat)
    requires Run(ttl, cap, events, states) && i < j < |events| && events[i].Tried? && events[j].Tried?
             && events[i].seed == events[j].seed
    ensures Verdict(hashOf, states[j], ttl, events[j].seed, events[j].counter, events[j].bits, events[j].now)
         == Err(InvalidSeed)
  {
    SeedGone(ttl, cap, events, states, i, j);
  }

  lemma {:induction false} SeedWasIssued(ttl: nat, cap: nat, events: seq<Event>, states: seq<Seeds>, j: nat,
                                         seed: string)
    requires Run(ttl, cap, events, states) && j <= |events| && seed in states[j]
    ensures exists i :: 0 <= i < j && events[i] == Issued(seed, states[j][seed])
  {
    if j > 0 {
      assert Stepped(ttl, cap, events[j - 1], states[j - 1], states[j]);
      if events[j - 1] != Issued(seed, states[j][seed]) {
        SeedWasIssued(ttl, cap, events, states, j - 1, seed);
      }
    }
  }

  /** An accepted proof is for a seed issued at most a TTL ago, and its hash is below the bound. */
  lemma AcceptedMeansWork(hashOf: (string, nat) -> Digest, ttl: nat, cap: nat, events: seq<Event>, states: seq<Seeds>,
                          j: nat)
    requires Run(ttl, cap, events, states) && j < |events| && events[j].Tried?
    requires Verdict(hashOf, states[j], ttl, events[j].seed, events[j].counter, events[j].bits, events[j].now) == Ok
    ensures exists i :: 0 <= i < j && events[i].Issued? && events[i].seed == events[j].seed
                        && events[j].now - events[i].now <= ttl
    ensures events[j].bits <= 256 && BelowBound(hashOf(events[j].seed, events[j].counter), events[j].bits)
  {
    SeedWasIssued(ttl, cap, events, states, j, events[j].seed);
  }
}
