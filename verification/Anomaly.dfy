/** The sliding-window anomaly detector of `src/rbac/dynamic/anomaly.rs`: a profile of the last
    requests, scored against a baseline learned once from the first hundred.

    Frequencies are real numbers, and the square root is a parameter about which nothing is
    assumed. */
module Anomaly {
  import opened Wrappers

  const BASELINE_MIN_SAMPLES: nat := 100

  datatype ActionCategory = ReadOnly | StateWrite | FileWrite | NetworkEgress | ProcessExec | ContainerLifecycle |
                            PrivilegedOp

  datatype Record = Record(action: string, category: ActionCategory, timestamp: int)

  type Table = map<ActionCategory, real>

  datatype Baseline = Baseline(means: Table, stdevs: Table)

  datatype Score = Score(value: real, reason: string)

  // ---------- frequency tables ----------

  function Count(records: seq<Record>, c: ActionCategory): nat {
    if records == [] then 0
    else Count(records[..|records| - 1], c) + if records[|records| - 1].category == c then 1 else 0
  }

  function Categories(records: seq<Record>): set<ActionCategory> { set r | r in records :: r.category }

  function Counts(records: seq<Record>): Table { map c | c in Categories(records) :: Count(records, c) as real }

  function Divided(t: Table, n: real): Table
    requires n > 0.0
  {
    map c | c in t :: t[c] / n
  }

  /** The share of each category that occurs. */
  function Freqs(records: seq<Record>): Table {
    if records == [] then map[] else Divided(Counts(records), |records| as real)
  }

  function At(t: Table, c: ActionCategory): real { if c in t then t[c] else 0.0 }

  function Sum(t: Table): real {
    At(t, ReadOnly) + At(t, StateWrite) + At(t, FileWrite) + At(t, NetworkEgress)
    + At(t, ProcessExec) + At(t, ContainerLifecycle) + At(t, PrivilegedOp)
  }

  lemma {:induction false} CountPositive(records: seq<Record>, c: ActionCategory)
    ensures Count(records, c) > 0 <==> c in Categories(records)
  {
    if records != [] {
      var front, last := records[..|records| - 1], records[|records| - 1];
      CountPositive(front, c);
      CategoriesStep(front, last);
      assert records == front + [last];
    }
  }

  lemma CategoriesStep(front: seq<Record>, last: Record)
    ensures Categories(front + [last]) == Categories(front) + {last.category}
  {
    var all := front + [last];
    forall c ensures c in Categories(all) <==> c in Categories(front) || c == last.category {
      if c in Categories(front) {
        var r :| r in front && r.category == c;
        assert r in all;
      }
      assert last in all;
    }
  }

  lemma CountLast(front: seq<Record>, last: Record, c: ActionCategory)
    ensures Count(front + [last], c) == Count(front, c) + if last.category == c then 1 else 0
  {
    var all := front + [last];
    assert all[..|all| - 1] == front && all[|all| - 1] == last;
  }

  lemma CountsStep(front: seq<Record>, last: Record)
    ensures Counts(front + [last]) == Counts(front)[last.category := At(Counts(front), last.category) + 1.0]
  {
    hide Categories, Count;
    CategoriesStep(front, last);
    CountPositive(front, last.category);
    forall c ensures Count(front + [last], c) == Count(front, c) + if last.category == c then 1 else 0 {
      CountLast(front, last, c);
    }
  }

  lemma {:induction false} CountsSum(records: seq<Record>)
    ensures Sum(Counts(records)) == |records| as real
  {
    hide Count, Sum, At;
    if records == [] {
      NoCounts();
    } else {
      var front, last := records[..|records| - 1], records[|records| - 1];
      assert records == front + [last];
      CountsSum(front);
      SumStep(front, last);
    }
  }

  lemma SumStep(front: seq<Record>, last: Record)
    ensures Sum(Counts(front + [last])) == Sum(Counts(front)) + 1.0
  {
    hide Counts;
    CountsStep(front, last);
    SumUpdate(Counts(front), last.category);
  }

  lemma NoCounts()
    ensures Counts([]) == map[] && Sum(Counts([])) == 0.0
  {
  }

  lemma SumUpdate(t: Table, c: ActionCategory)
    ensures Sum(t[c := At(t, c) + 1.0]) == Sum(t) + 1.0
  {
  }

  lemma AtDivided(t: Table, n: real, c: ActionCategory)
    requires n > 0.0
    ensures At(Divided(t, n), c) == At(t, c) / n
  {
  }

  lemma DivideSum(a: real, b: real, n: real)
    requires n > 0.0
    ensures a / n + b / n == (a + b) / n
  {
  }

  lemma SumDivided(t: Table, n: real)
    requires n > 0.0
    ensures Sum(Divided(t, n)) == Sum(t) / n
  {
    hide At, Divided;
    AtDivided(t, n, ReadOnly);
    AtDivided(t, n, StateWrite);
    AtDivided(t, n, FileWrite);
    AtDivided(t, n, NetworkEgress);
    AtDivided(t, n, ProcessExec);
    AtDivided(t, n, ContainerLifecycle);
    AtDivided(t, n, PrivilegedOp);
    var s := At(t, ReadOnly);
    DivideSum(s, At(t, StateWrite), n);
    s := s + At(t, StateWrite);
    DivideSum(s, At(t, FileWrite), n);
    s := s + At(t, FileWrite);
    DivideSum(s, At(t, NetworkEgress), n);
    s := s + At(t, NetworkEgress);
    DivideSum(s, At(t, ProcessExec), n);
    s := s + At(t, ProcessExec);
    DivideSum(s, At(t, ContainerLifecycle), n);
    s := s + At(t, ContainerLifecycle);
    DivideSum(s, At(t, PrivilegedOp), n);
  }

  lemma CountsPositive(records: seq<Record>, c: ActionCategory)
    requires c in Counts(records)
    ensures Counts(records)[c] > 0.0
  {
    CountPositive(records, c);
  }

  /** The shares are positive and sum to one. */
  lemma FreqsSumToOne(records: seq<Record>)
    requires records != []
    ensures Sum(Freqs(records)) == 1.0
    ensures forall c :: c in Freqs(records) ==> 0.0 < Freqs(records)[c]
  {
    hide Counts, Sum;
    var n := |records| as real;
    CountsSum(records);
    SumDivided(Counts(records), n);
    WholeShare(n);
    forall c | c in Freqs(records) ensures 0.0 < Freqs(records)[c] {
      CountsPositive(records, c);
      PositiveShare(Counts(records)[c], n);
    }
  }

  lemma WholeShare(n: real)
    requires n > 0.0
    ensures n / n == 1.0
  {
  }

  lemma PositiveShare(k: real, n: real)
    requires k > 0.0 && n > 0.0
    ensures k / n > 0.0
  {
  }

  // ---------- the baseline and the deviation from it ----------

  function Max(a: real, b: real): real { if a > b then a else b }

  function Abs(x: real): real { if x < 0.0 then -x else x }

  function Stdev(sqrt: real -> real, p: real, n: real): real
    requires n > 0.0
  {
    var sampleVar := if n > 1.0 then p * (1.0 - p) * n / (n - 1.0) else p * (1.0 - p);
    Max(sqrt(sampleVar), 0.01)
  }

  function BaselineOf(sqrt: real -> real, records: seq<Record>): Baseline
    requires records != []
  {
    Baseline(Freqs(records), map c | c in Freqs(records) :: Stdev(sqrt, Freqs(records)[c], |records| as real))
  }

  function ZScore(freq: real, mean: real, stdev: real): real {
    if stdev > 0.0 then (freq - mean) / stdev else if Abs(freq - mean) < 0.000_000_000_001 then 0.0 else 2.0
  }

  /** What a category adds to the deviation: its z-score, or 2 for having disappeared. */
  function Term(profile: Table, b: Baseline, c: ActionCategory): real {
    if c in profile then Abs(ZScore(profile[c], At(b.means, c), if c in b.stdevs then b.stdevs[c] else 0.1)) else 2.0
  }

  function Disappeared(profile: Table, b: Baseline): set<ActionCategory> {
    set c | c in b.means && c !in profile && b.means[c] > 0.01
  }

  function TermIn(profile: Table, b: Baseline, s: set<ActionCategory>, c: ActionCategory): real {
    if c in s then Term(profile, b, c) else 0.0
  }

  function Total(profile: Table, b: Baseline, s: set<ActionCategory>): real {
    TermIn(profile, b, s, ReadOnly) + TermIn(profile, b, s, StateWrite) + TermIn(profile, b, s, FileWrite)
    + TermIn(profile, b, s, NetworkEgress)
    + TermIn(profile, b, s, ProcessExec) + TermIn(profile, b, s, ContainerLifecycle)
    + TermIn(profile, b, s, PrivilegedOp)
  }

  /** A third of the mean term, at most 1. */
  function Scaled(total: real, count: nat): real {
    if count == 0 then 0.0
    else
      var third := total / count as real / 3.0;
      if third < 1.0 then third else 1.0
  }

  function Deviation(profile: Table, b: Baseline): real {
    var weighed := profile.Keys + Disappeared(profile, b);
    Scaled(Total(profile, b, weighed), |weighed|)
  }

  lemma TermNotNegative(profile: Table, b: Baseline, c: ActionCategory)
    ensures Term(profile, b, c) >= 0.0
  {
  }

  lemma TotalZero(profile: Table, b: Baseline, s: set<ActionCategory>)
    ensures Total(profile, b, s) >= 0.0
    ensures Total(profile, b, s) == 0.0 <==> forall c :: c in s ==> Term(profile, b, c) == 0.0
  {
    hide Term;
    forall c ensures TermIn(profile, b, s, c) >= 0.0 {
      TermNotNegative(profile, b, c);
    }
    forall c ensures 0.0 <= TermIn(profile, b, s, c) <= Total(profile, b, s) {
      OneOfSeven(TermIn(profile, b, s, ReadOnly), TermIn(profile, b, s, StateWrite), TermIn(profile, b, s, FileWrite),
                 TermIn(profile, b, s, NetworkEgress),
                 TermIn(profile, b, s, ProcessExec),
                 TermIn(profile, b, s, ContainerLifecycle), TermIn(profile, b, s, PrivilegedOp));
      match c
      case ReadOnly =>
      case StateWrite =>
      case FileWrite =>
      case NetworkEgress =>
      case ProcessExec =>
      case ContainerLifecycle =>
      case PrivilegedOp =>
    }
    if Total(profile, b, s) == 0.0 {
      forall c | c in s ensures Term(profile, b, c) == 0.0 {
        assert TermIn(profile, b, s, c) == 0.0;
      }
    }
  }

  lemma OneOfSeven(a: real, b: real, c: real, d: real, e: real, f: real, g: real)
    requires a >= 0.0 && b >= 0.0 && c >= 0.0 && d >= 0.0 && e >= 0.0 && f >= 0.0 && g >= 0.0
    ensures var t := a + b + c + d + e + f + g; a <= t && b <= t && c <= t && d <= t && e <= t && f <= t && g <= t
  {
  }

  lemma TotalStep(profile: Table, b: Baseline, s: set<ActionCategory>, c: ActionCategory)
    requires c !in s
    ensures Total(profile, b, s + {c}) == Total(profile, b, s) + Term(profile, b, c)
  {
    hide Term;
  }

  lemma ScaledBounds(total: real, count: nat)
    requires total >= 0.0
    ensures 0.0 <= Scaled(total, count) <= 1.0
    ensures Scaled(total, count) == 0.0 <==> count == 0 || total == 0.0
  {
    if count > 0 {
      Quotient(total, count as real);
      Quotient(total / count as real, 3.0);
    }
  }

  lemma Quotient(x: real, d: real)
    requires x >= 0.0 && d > 0.0
    ensures x / d >= 0.0 && (x / d == 0.0 <==> x == 0.0)
  {
    assert x == (x / d) * d;
  }

  /** Whatever the profile and the baseline are, also one supplied from outside. */
  lemma DeviationInUnitInterval(profile: Table, b: Baseline)
    ensures 0.0 <= Deviation(profile, b) <= 1.0
  {
    var weighed := profile.Keys + Disappeared(profile, b);
    TotalZero(profile, b, weighed);
    ScaledBounds(Total(profile, b, weighed), |weighed|);
  }

  lemma DeviationZero(profile: Table, b: Baseline)
    requires |profile| > 0
    ensures Deviation(profile, b) == 0.0
       <==> Disappeared(profile, b) == {} && forall c :: c in profile ==> Term(profile, b, c) == 0.0
  {
    hide Total;
    var weighed := profile.Keys + Disappeared(profile, b);
    TotalZero(profile, b, weighed);
    ScaledBounds(Total(profile, b, weighed), |weighed|);
    var k :| k in profile.Keys;
    assert weighed != {} by {
      assert k in weighed;
    }
    forall c | c in Disappeared(profile, b) ensures Term(profile, b, c) == 2.0 {
    }
  }

  lemma TermZero(profile: Table, sqrt: real -> real, base: seq<Record>, c: ActionCategory)
    requires base != [] && c in profile
    ensures Term(profile, BaselineOf(sqrt, base), c) == 0.0 <==> profile[c] == At(Freqs(base), c)
  {
    hide Freqs, Stdev;
    var b := BaselineOf(sqrt, base);
    var stdev := if c in b.stdevs then b.stdevs[c] else 0.1;
    StdevPositive(sqrt, base, c);
    SignedQuotient(profile[c] - At(b.means, c), stdev);
  }

  lemma StdevPositive(sqrt: real -> real, base: seq<Record>, c: ActionCategory)
    requires base != []
    ensures c in BaselineOf(sqrt, base).stdevs ==> BaselineOf(sqrt, base).stdevs[c] >= 0.01
  {
  }

  lemma SignedQuotient(x: real, d: real)
    requires d > 0.0
    ensures x / d == 0.0 <==> x == 0.0
  {
    assert x == (x / d) * d;
  }

  /** Two tables of shares that agree wherever the first one is defined are the same table. */
  lemma SameShares(p: Table, q: Table)
    requires Sum(p) == Sum(q)
    requires forall c :: c in q ==> q[c] > 0.0
    requires forall c :: c in p ==> p[c] > 0.0 && p[c] == At(q, c)
    ensures p == q
  {
    forall c | c in q ensures c in p {
      NoRoomLeft(p, q, c);
    }
  }

  lemma NoRoomLeft(p: Table, q: Table, c: ActionCategory)
    requires Sum(p) == Sum(q) && c in q
    requires forall d :: d in q ==> q[d] > 0.0
    requires forall d :: d in p ==> p[d] == At(q, d)
    ensures c in p
  {
    hide Sum;
    if c !in p {
      SmallerSum(p, q, c);
    }
  }

  lemma SmallerSum(p: Table, q: Table, c: ActionCategory)
    requires forall d :: At(p, d) <= At(q, d)
    requires At(p, c) < At(q, c)
    ensures Sum(p) < Sum(q)
  {
  }

  /** The deviation from a learned baseline is zero exactly when the window has the very
      frequencies of the samples that the baseline was learned from. */
  lemma NoDriftExactly(sqrt: real -> real, base: seq<Record>, window: seq<Record>)
    requires base != [] && window != []
    ensures Deviation(Freqs(window), BaselineOf(sqrt, base)) == 0.0 <==> Freqs(window) == Freqs(base)
  {
    hide Freqs, Sum, Term, Deviation, Stdev;
    var p, q, b := Freqs(window), Freqs(base), BaselineOf(sqrt, base);
    FreqsSumToOne(window);
    FreqsSumToOne(base);
    EmptySum(p);
    DeviationZero(p, b);
    forall c | c in p ensures Term(p, b, c) == 0.0 <==> p[c] == At(q, c) {
      TermZero(p, sqrt, base, c);
    }
    if Deviation(p, b) == 0.0 {
      SameShares(p, q);
    }
  }

  lemma EmptySum(p: Table)
    ensures |p| == 0 ==> Sum(p) == 0.0
  {
    if |p| == 0 {
      assert p == map[];
    }
  }

  // ---------- what the numbers are ----------

  /** Where the category occurs. */
  function Places(records: seq<Record>, c: ActionCategory): set<nat> {
    set i: nat | i < |records| && records[i].category == c
  }

  lemma PlacesStep(front: seq<Record>, last: Record, c: ActionCategory)
    ensures Places(front + [last], c) == Places(front, c) + if last.category == c then {|front|} else {}
    ensures |front| !in Places(front, c)
  {
  }

  lemma {:induction false} CountIsCardinality(records: seq<Record>, c: ActionCategory)
    ensures Count(records, c) == |Places(records, c)|
  {
    if records == [] {
      assert Places(records, c) == {};
    } else {
      hide Places;
      var front, last := records[..|records| - 1], records[|records| - 1];
      assert records == front + [last];
      CountIsCardinality(front, c);
      PlacesStep(front, last, c);
    }
  }

  /** The profile has a category exactly when it occurs, and its share is the number of places where
      it occurs among all. */
  lemma SharesExactly(records: seq<Record>, c: ActionCategory)
    requires records != []
    ensures var at := set i: nat | i < |records| && records[i].category == c;
            && (c in Freqs(records) <==> at != {})
            && (c in Freqs(records) ==> Freqs(records)[c] == |at| as real / |records| as real)
  {
    CountIsCardinality(records, c);
    CountPositive(records, c);
  }

  /** The unbiased variance of `n` samples of mean `p`, of which `k` lie `1 - p` above the mean and the
      others `p` below it. */
  function SampleVariance(p: real, k: real, n: real): real
    requires n > 1.0
  {
    (k * ((1.0 - p) * (1.0 - p)) + (n - k) * (p * p)) / (n - 1.0)
  }

  /** The deviation learned for a category with the share `p` is the root of that variance, and at
      least a hundredth.  A single sample has the variance zero. */
  lemma RootOfVariance(sqrt: real -> real, p: real, k: nat, n: nat)
    requires k <= n && n >= 1 && p == k as real / n as real
    ensures var root := sqrt(if n == 1 then 0.0 else SampleVariance(p, k as real, n as real));
            Stdev(sqrt, p, n as real) == if root > 0.01 then root else 0.01
  {
    if n == 1 {
      assert n as real == 1.0 && p == k as real;
      assert k == 0 || k == 1;
    } else {
      RootOfSeveral(sqrt, p, k, n);
    }
  }

  lemma RootOfSeveral(sqrt: real -> real, p: real, k: nat, n: nat)
    requires k <= n && n >= 2 && p == k as real / n as real
    ensures Stdev(sqrt, p, n as real) == Max(sqrt(SampleVariance(p, k as real, n as real)), 0.01)
  {
    var m, j := n as real, k as real;
    Squares(j, m, p);
    var top := j * ((1.0 - p) * (1.0 - p)) + (m - j) * (p * p);
    StdevOf(sqrt, p, m, top);
    assert SampleVariance(p, j, m) == top / (m - 1.0);
    assert sqrt(SampleVariance(p, j, m)) == sqrt(top / (m - 1.0));
    assert Stdev(sqrt, p, m) == Max(sqrt(SampleVariance(p, j, m)), 0.01);
  }

  lemma StdevOf(sqrt: real -> real, p: real, m: real, top: real)
    requires m > 1.0 && top == p * (1.0 - p) * m
    ensures Stdev(sqrt, p, m) == Max(sqrt(top / (m - 1.0)), 0.01)
  {
    var sampleVar := p * (1.0 - p) * m / (m - 1.0);
    assert sampleVar == top / (m - 1.0);
  }

  lemma Squares(j: real, m: real, p: real)
    requires m > 1.0 && p == j / m
    ensures j * ((1.0 - p) * (1.0 - p)) + (m - j) * (p * p) == p * (1.0 - p) * m
  {
    assert j == p * m;
    var q := 1.0 - p;
    assert m - j == q * m by {
      assert q * m == m - p * m;
    }
    Regroup(p, q, m);
  }

  lemma Regroup(p: real, q: real, m: real)
    requires p + q == 1.0
    ensures (p * m) * (q * q) + (q * m) * (p * p) == p * q * m
  {
    assert (p * m) * (q * q) + (q * m) * (p * p) == (p * q * m) * (p + q);
  }

  lemma TotalDisjoint(profile: Table, b: Baseline, s: set<ActionCategory>, u: set<ActionCategory>)
    requires s !! u
    ensures Total(profile, b, s + u) == Total(profile, b, s) + Total(profile, b, u)
  {
    hide Term, TermIn;
    forall c ensures TermIn(profile, b, s + u, c) == TermIn(profile, b, s, c) + TermIn(profile, b, u, c) {
      TermInDisjoint(profile, b, s, u, c);
    }
  }

  lemma TermInDisjoint(profile: Table, b: Baseline, s: set<ActionCategory>, u: set<ActionCategory>, c: ActionCategory)
    requires s !! u
    ensures TermIn(profile, b, s + u, c) == TermIn(profile, b, s, c) + TermIn(profile, b, u, c)
  {
    hide Term;
  }

  lemma {:induction false} GoneTotal(profile: Table, b: Baseline, s: set<ActionCategory>)
    requires s !! profile.Keys
    ensures Total(profile, b, s) == 2.0 * |s| as real
  {
    hide Total;
    if s == {} {
      NothingTotal(profile, b);
    } else {
      var c :| c in s;
      GoneTotal(profile, b, s - {c});
      TotalStep(profile, b, s - {c}, c);
      assert s - {c} + {c} == s;
    }
  }

  lemma NothingTotal(profile: Table, b: Baseline)
    ensures Total(profile, b, {}) == 0.0
  {
  }

  lemma PresentTotal(profile: Table, b: Baseline)
    requires forall c :: c in profile ==> c !in b.means && c !in b.stdevs && profile[c] >= 0.0
    ensures Total(profile, b, profile.Keys) == 10.0 * Sum(profile)
  {
    forall c ensures TermIn(profile, b, profile.Keys, c) == 10.0 * At(profile, c) {
    }
  }

  /** A category of the window that the baseline knows counts by how many of its deviations it is
      away from its mean. */
  lemma DistanceInDeviations(profile: Table, b: Baseline, c: ActionCategory)
    requires c in profile && c in b.means && c in b.stdevs
    ensures var away := if profile[c] >= b.means[c] then profile[c] - b.means[c] else b.means[c] - profile[c];
            if b.stdevs[c] > 0.0 then Term(profile, b, c) * b.stdevs[c] == away
            else Term(profile, b, c) == if away < 0.000_000_000_001 then 0.0 else 2.0
  {
    if b.stdevs[c] > 0.0 {
      var x, d := profile[c] - b.means[c], b.stdevs[c];
      assert x / d * d == x;
      SignOfQuotient(x, d);
    }
  }

  lemma SignOfQuotient(x: real, d: real)
    requires d > 0.0
    ensures x / d < 0.0 <==> x < 0.0
  {
    assert x / d * d == x;
  }

  /** A window of `k` categories none of which the baseline knows, against `gone` categories with more
      than a hundredth of the baseline: each present one counts ten times its share, each gone one
      counts two, and a third of the mean is capped at one. */
  lemma DisjointDrift(sqrt: real -> real, base: seq<Record>, window: seq<Record>)
    requires base != [] && window != []
    requires Freqs(base).Keys !! Freqs(window).Keys
    ensures |Freqs(window)| > 0
    ensures var k := |Freqs(window)|;
            var gone := |set c | c in Freqs(base) && Freqs(base)[c] > 0.01|;
            var third := (10.0 + 2.0 * gone as real) / (k + gone) as real / 3.0;
            Deviation(Freqs(window), BaselineOf(sqrt, base)) == if third < 1.0 then third else 1.0
  {
    hide Freqs, Total, Sum, Stdev;
    var p, b := Freqs(window), BaselineOf(sqrt, base);
    FreqsSumToOne(window);
    EmptySum(p);
    var gone := Disappeared(p, b);
    assert gone == set c | c in Freqs(base) && Freqs(base)[c] > 0.01;
    PresentTotal(p, b);
    GoneTotal(p, b, gone);
    TotalDisjoint(p, b, p.Keys, gone);
    assert |p.Keys + gone| == |p| + |gone|;
  }

  // ---------- the detector ----------

  function Last<T>(s: seq<T>, n: nat): seq<T> { if |s| <= n then s else s[|s| - n..] }

  function WindowLength(windowSize: nat): nat { if windowSize < 1 then 1 else windowSize }

  function ScoreOf(deviation: real): Score {
    if deviation > 0.7 then Score(deviation, "high-pattern-deviation")
    else if deviation > 0.4 then Score(deviation, "moderate-pattern-deviation")
    else Score(deviation, "normal")
  }

  /** The reasons, by the deviation that is reported. */
  lemma ReasonsExactly(deviation: real)
    ensures var score := ScoreOf(deviation);
            && score.value == deviation
            && (score.reason == "high-pattern-deviation" <==> deviation > 0.7)
            && (score.reason == "moderate-pattern-deviation" <==> 0.4 < deviation <= 0.7)
            && (score.reason == "normal" <==> deviation <= 0.4)
  {
    assert "high-pattern-deviation"[0] == 'h' && "moderate-pattern-deviation"[0] == 'm' && "normal"[0] == 'n';
  }

  /** The first requests do not change once they are there. */
  lemma FirstOnes(seen: seq<Record>, r: Record, n: nat)
    ensures n <= |seen| ==> (seen + [r])[..n] == seen[..n]
    ensures n == |seen| + 1 ==> (seen + [r])[..n] == seen + [r]
  {
  }

  lemma Retained(seen: seq<Record>, r: Record, collected: nat)
    requires collected <= |seen|
    ensures (seen + [r])[..collected] == seen[..collected]
    ensures seen[..|seen|] == seen
    ensures (seen + [r])[..|seen| + 1] == seen + [r]
    ensures (seen + [r])[..0] == []
  {
  }

  /** Where a detector's baseline comes from: none so far, the table of the first hundred, the
      host, or the host's call to rebuild it from what had been retained. */
  datatype Origin = NoneYet | Learned | Supplied(b: Baseline) | Rebuilt

  /** The baseline is the one its origin says, and the number retained fits that origin. */
  ghost predicate Explains(sqrt: real -> real, seen: seq<Record>, collected: nat, origin: Origin,
                           baseline: Option<Baseline>)
  {
    && collected <= |seen|
    && collected < BASELINE_MIN_SAMPLES
    && match origin
       case NoneYet => collected == |seen| && baseline == None
       case Learned =>
         && collected == 0
         && |seen| >= BASELINE_MIN_SAMPLES
         && baseline == Some(BaselineOf(sqrt, seen[..BASELINE_MIN_SAMPLES]))
       case Supplied(b) => baseline == Some(b)
       case Rebuilt =>
         && collected > 0
         && |seen| >= BASELINE_MIN_SAMPLES
         && baseline == Some(BaselineOf(sqrt, seen[..collected]))
  }

  /** One more request: a detector without a baseline retains it, and learns when it is the
      hundredth; any other baseline is explained as before. */
  lemma ExplainsOneMore(sqrt: real -> real, seen: seq<Record>, r: Record, collected: nat, origin: Origin,
                        baseline: Option<Baseline>)
    requires Explains(sqrt, seen, collected, origin, baseline)
    ensures baseline.None? <==> origin.NoneYet?
    ensures origin.NoneYet? ==> collected == |seen| < BASELINE_MIN_SAMPLES
    ensures origin.NoneYet? && |seen| + 1 < BASELINE_MIN_SAMPLES
            ==> Explains(sqrt, seen + [r], |seen| + 1, NoneYet, None)
    ensures origin.NoneYet? && |seen| + 1 == BASELINE_MIN_SAMPLES
            ==> Explains(sqrt, seen + [r], 0, Learned, Some(BaselineOf(sqrt, seen + [r])))
    ensures !origin.NoneYet? ==> Explains(sqrt, seen + [r], collected, origin, baseline)
  {
    hide BaselineOf;
    FirstOnes(seen, r, BASELINE_MIN_SAMPLES);
    FirstOnes(seen, r, collected);
  }

  lemma ExplainsRebuilt(sqrt: real -> real, seen: seq<Record>, collected: nat, origin: Origin,
                        baseline: Option<Baseline>)
    requires Explains(sqrt, seen, collected, origin, baseline)
    requires |seen| >= BASELINE_MIN_SAMPLES && collected > 0
    ensures origin.Supplied? || origin.Rebuilt?
    ensures Explains(sqrt, seen, collected, Rebuilt, Some(BaselineOf(sqrt, seen[..collected])))
  {
    hide BaselineOf;
  }

  class AnomalyDetector {
    const windowSize: nat
    const sqrt: real -> real
    var recentActions: seq<Record>
    var profile: Table
    var baseline: Option<Baseline>
    var totalObserved: nat
    var history: seq<Record>
    /** Every request observed so far, how many of the first of them are retained, and what the
        baseline is. */
    ghost var seen: seq<Record>
    ghost var collected: nat
    ghost var origin: Origin

    /** The window is the last requests, the profile their shares.  A detector without a baseline
        retains everything; at a hundred requests it learns their table and retains nothing.  A
        supplied baseline stops the collecting, and what was retained stays. */
    ghost predicate Valid()
      reads this
    {
      && totalObserved == |seen|
      && recentActions == Last(seen, WindowLength(windowSize))
      && profile == Freqs(recentActions)
      && collected <= |seen|
      && history == seen[..collected]
      && Explains(sqrt, seen, collected, origin, baseline)
    }

    constructor (windowSize: nat, sqrt: real -> real)
      ensures Valid() && seen == [] && origin == NoneYet
      ensures this.windowSize == windowSize && this.sqrt == sqrt
    {
      this.windowSize := windowSize;
      this.sqrt := sqrt;
      recentActions := [];
      profile := map[];
      baseline := None;
      totalObserved := 0;
      history := [];
      seen := [];
      collected := 0;
      origin := NoneYet;
    }

    /** At any time, also long after the first request. */
    method WithBaseline(b: Baseline)
      requires Valid()
      modifies this`baseline, this`origin
      ensures Valid() && origin == Supplied(b)
    {
      baseline := Some(b);
      origin := Supplied(b);
    }

    predicate IsBaselineReady()
      reads this
    {
      totalObserved >= BASELINE_MIN_SAMPLES
    }

    /** One more request: the fixed score while samples are few, then the deviation. */
    method Observe(request: Record) returns (score: Score)
      requires Valid()
      modifies this
      ensures Valid() && seen == old(seen) + [request]
      ensures origin == if old(origin).NoneYet? && |seen| >= BASELINE_MIN_SAMPLES then Learned else old(origin)
      ensures collected == if origin.NoneYet? then |seen| else if origin == old(origin) then old(collected) else 0
      ensures |seen| < 100 ==> score == Score(0.1, "insufficient-samples")
      ensures |seen| >= 100 ==> baseline.Some? && score == ScoreOf(Deviation(profile, baseline.value))
    {
      hide Deviation, Freqs, Last, BaselineOf, WindowLength, ScoreOf, Explains;
      WindowSlides(seen, request, windowSize);
      ExplainsOneMore(sqrt, seen, request, collected, origin, baseline);
      Retained(seen, request, collected);
      totalObserved := totalObserved + 1;
      seen := seen + [request];
      if |recentActions| >= windowSize && recentActions != [] {
        recentActions := recentActions[1..];
      }
      recentActions := recentActions + [request];
      if baseline.None? && |history| < BASELINE_MIN_SAMPLES {
        history := history + [request];
        collected := |seen|;
      }
      RecomputeProfile();
      if IsBaselineReady() && baseline.None? {
        BuildBaselineFromHistory();
        history := [];
        collected, origin := 0, Learned;
      }
      assert Valid();
      if !IsBaselineReady() {
        return Score(0.1, "insufficient-samples");
      }
      var deviation := PatternDeviation();
      score := ScoreOf(deviation);
    }

    method RecomputeProfile()
      modifies this`profile
      ensures profile == Freqs(recentActions)
    {
      hide Counts;
      profile := map[];
      if recentActions == [] {
        return;
      }
      NoCounts();
      for i := 0 to |recentActions|
        invariant profile == Counts(recentActions[..i])
      {
        var c := recentActions[i].category;
        assert recentActions[..i + 1] == recentActions[..i] + [recentActions[i]];
        CountsStep(recentActions[..i], recentActions[i]);
        profile := profile[c := At(profile, c) + 1.0];
      }
      assert recentActions[..|recentActions|] == recentActions;
      var n := |recentActions| as real;
      var rest := profile.Keys;
      ghost var counts := profile;
      while rest != {}
        invariant rest <= profile.Keys == counts.Keys
        invariant forall c :: c in profile ==> profile[c] == if c in rest then counts[c] else counts[c] / n
        decreases |rest|
      {
        var c :| c in rest;
        rest := rest - {c};
        profile := profile[c := profile[c] / n];
      }
      assert profile == Divided(counts, n);
    }

    /** Open to the host at any time.  It changes nothing while fewer than a hundred were observed
        or when nothing is retained, as in every detector that learns by itself; otherwise what
        was retained replaces the supplied baseline. */
    method BuildBaselineFromHistory()
      modifies this`baseline, this`origin
      ensures var still := totalObserved < BASELINE_MIN_SAMPLES || history == [];
              && baseline == (if still then old(baseline) else Some(BaselineOf(sqrt, history)))
              && origin == (if still then old(origin) else Rebuilt)
      ensures old(Valid()) ==> Valid()
      ensures old(Valid()) && (old(origin).NoneYet? || old(origin).Learned?) ==> baseline == old(baseline)
    {
      hide BaselineOf, Explains, Freqs, Last, WindowLength;
      if totalObserved < BASELINE_MIN_SAMPLES {
        return;
      }
      if |history| == 0 {
        return;
      }
      if Valid() {
        ExplainsRebuilt(sqrt, seen, collected, origin, baseline);
      }
      var b := TableOfHistory();
      baseline := Some(b);
      origin := Rebuilt;
    }

    /** The counting and the dividing loop of a rebuild. */
    method TableOfHistory() returns (b: Baseline)
      requires history != []
      ensures b == BaselineOf(sqrt, history)
    {
      hide Counts, Stdev;
      var n := |history| as real;
      var counts: Table := map[];
      NoCounts();
      for i := 0 to |history|
        invariant counts == Counts(history[..i])
      {
        var c := history[i].category;
        assert history[..i + 1] == history[..i] + [history[i]];
        CountsStep(history[..i], history[i]);
        counts := counts[c := At(counts, c) + 1.0];
      }
      assert history[..|history|] == history;
      var means := Divided(counts, n);
      var stdevs: Table := map[];
      var rest := counts.Keys;
      while rest != {}
        invariant rest <= counts.Keys && stdevs.Keys == counts.Keys - rest
        invariant forall c :: c in stdevs ==> stdevs[c] == Stdev(sqrt, means[c], n)
        decreases |rest|
      {
        var c :| c in rest;
        rest := rest - {c};
        var p := counts[c] / n;
        stdevs := stdevs[c := Stdev(sqrt, p, n)];
      }
      assert stdevs == BaselineOf(sqrt, history).stdevs;
      b := Baseline(means, stdevs);
    }

    method PatternDeviation() returns (d: real)
      ensures d == if baseline.Some? then Deviation(profile, baseline.value) else 0.0
    {
      hide *;
      if baseline.None? {
        return 0.0;
      }
      var b := baseline.value;
      var totalDeviation, count := 0.0, 0;
      var rest := profile.Keys;
      NothingTallied(profile, b);
      while rest != {}
        invariant rest <= profile.Keys && Tallied(profile, b, profile.Keys - rest, totalDeviation, count)
        decreases |rest|
      {
        var c :| c in rest;
        TallyStep(profile, b, profile.Keys - rest, c, totalDeviation, count);
        TermOfProfile(profile, b, c);
        assert profile.Keys - (rest - {c}) == profile.Keys - rest + {c};
        rest := rest - {c};
        var stdev := if c in b.stdevs then b.stdevs[c] else 0.1;
        totalDeviation := totalDeviation + Abs(ZScore(profile[c], At(b.means, c), stdev));
        count := count + 1;
      }
      rest := b.means.Keys;
      WeighedStarts(profile, b);
      while rest != {}
        invariant rest <= b.means.Keys && Tallied(profile, b, WeighedOutside(profile, b, rest), totalDeviation, count)
        decreases |rest|
      {
        var c :| c in rest;
        WeighedStep(profile, b, rest, c);
        rest := rest - {c};
        if c !in profile && b.means[c] > 0.01 {
          TallyStep(profile, b, WeighedOutside(profile, b, rest + {c}), c, totalDeviation, count);
          totalDeviation := totalDeviation + 2.0;
          count := count + 1;
        }
      }
      TallyIsDeviation(profile, b, totalDeviation, count);
      d := Scaled(totalDeviation, count);
    }
  }

  ghost predicate Tallied(profile: Table, b: Baseline, s: set<ActionCategory>, total: real, count: nat) {
    total == Total(profile, b, s) && count == |s|
  }

  /** The categories weighed when those in `rest` have still to be looked at. */
  ghost function WeighedOutside(profile: Table, b: Baseline, rest: set<ActionCategory>): set<ActionCategory> {
    profile.Keys + (Disappeared(profile, b) - rest)
  }

  lemma NothingTallied(profile: Table, b: Baseline)
    ensures Tallied(profile, b, profile.Keys - profile.Keys, 0.0, 0)
  {
  }

  lemma TallyStep(profile: Table, b: Baseline, s: set<ActionCategory>, c: ActionCategory, total: real, count: nat)
    requires Tallied(profile, b, s, total, count) && c !in s
    ensures Tallied(profile, b, s + {c}, total + Term(profile, b, c), count + 1)
  {
    hide Total;
    TotalStep(profile, b, s, c);
  }

  lemma WeighedStarts(profile: Table, b: Baseline)
    ensures WeighedOutside(profile, b, b.means.Keys) == profile.Keys - {}
  {
    assert Disappeared(profile, b) - b.means.Keys == {};
  }

  lemma WeighedStep(profile: Table, b: Baseline, rest: set<ActionCategory>, c: ActionCategory)
    requires c in rest && rest <= b.means.Keys
    ensures rest - {c} + {c} == rest
    ensures if c !in profile && b.means[c] > 0.01
            then c !in WeighedOutside(profile, b, rest)
                 && WeighedOutside(profile, b, rest - {c}) == WeighedOutside(profile, b, rest) + {c}
                 && Term(profile, b, c) == 2.0
            else WeighedOutside(profile, b, rest - {c}) == WeighedOutside(profile, b, rest)
  {
  }

  lemma TallyIsDeviation(profile: Table, b: Baseline, total: real, count: nat)
    requires Tallied(profile, b, WeighedOutside(profile, b, {}), total, count)
    ensures Scaled(total, count) == Deviation(profile, b)
  {
    hide Total, Scaled;
    assert Disappeared(profile, b) - {} == Disappeared(profile, b);
  }

  lemma TermOfProfile(profile: Table, b: Baseline, c: ActionCategory)
    requires c in profile
    ensures Term(profile, b, c) == Abs(ZScore(profile[c], At(b.means, c), if c in b.stdevs then b.stdevs[c] else 0.1))
  {
  }

  /** Dropping the oldest when the window is full and then adding keeps the last requests: at
      least one of them, even for a window size of zero. */
  lemma WindowSlides(seen: seq<Record>, r: Record, windowSize: nat)
    ensures var window := Last(seen, WindowLength(windowSize));
            Last(seen + [r], WindowLength(windowSize))
            == (if |window| >= windowSize && window != [] then window[1..] else window) + [r]
  {
  }
}
