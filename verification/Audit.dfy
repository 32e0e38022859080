/** `DefaultAuditAnalyzer::analyze` of `src/rbac/audit.rs`: counts per subject and permission, and
    the ten riskiest entries of a batch.  Risk scores are real numbers. */
module Audit {
  import opened Wrappers

  const TOP_RISK: nat := 10
  const HIGH_RISK: real := 0.6

  /** `risk` is the score of the entry's verdict, if it has one. */
  datatype Entry = Entry(subjectId: string, permission: string, granted: bool, risk: Option<real>)

  datatype SubjectStats = SubjectStats(total: nat, denied: nat, avgRisk: real, maxRisk: real)

  datatype Analysis = Analysis(
    totalEntries: nat, deniedCount: nat, deniedRate: real, highRiskCount: nat,
    bySubject: map<string, SubjectStats>, byPermission: map<string, nat>, topRiskEntries: seq<Entry>)

  predicate IsDenied(e: Entry) { !e.granted }

  predicate IsHighRisk(e: Entry) { e.risk.Some? && e.risk.value >= HIGH_RISK }

  function Risk(e: Entry): real { if e.risk.Some? then e.risk.value else 0.0 }

  // ---------- what is counted ----------

  function Of(entries: seq<Entry>, subject: string): seq<Entry> {
    if entries == [] then []
    else
      var last := entries[|entries| - 1];
      Of(entries[..|entries| - 1], subject) + if last.subjectId == subject then [last] else []
  }

  function Denials(entries: seq<Entry>): nat {
    if entries == [] then 0 else Denials(entries[..|entries| - 1]) + if IsDenied(entries[|entries| - 1]) then 1 else 0
  }

  function HighRisks(entries: seq<Entry>): nat {
    if entries == [] then 0
    else HighRisks(entries[..|entries| - 1]) + if IsHighRisk(entries[|entries| - 1]) then 1 else 0
  }

  function RiskSum(entries: seq<Entry>): real {
    if entries == [] then 0.0 else RiskSum(entries[..|entries| - 1]) + Risk(entries[|entries| - 1])
  }

  /** At least zero, whatever the risks. */
  function MaxRisk(entries: seq<Entry>): real {
    if entries == [] then 0.0
    else
      var m := MaxRisk(entries[..|entries| - 1]);
      if Risk(entries[|entries| - 1]) > m then Risk(entries[|entries| - 1]) else m
  }

  function WithPermission(entries: seq<Entry>, permission: string): nat {
    if entries == [] then 0
    else
      WithPermission(entries[..|entries| - 1], permission)
      + if entries[|entries| - 1].permission == permission then 1 else 0
  }

  lemma {:induction false} MaxRiskIsMax(entries: seq<Entry>)
    ensures MaxRisk(entries) >= 0.0
    ensures forall e :: e in entries ==> Risk(e) <= MaxRisk(entries)
    ensures MaxRisk(entries) == 0.0 || exists e :: e in entries && Risk(e) == MaxRisk(entries)
  {
    if entries != [] {
      var front, last := entries[..|entries| - 1], entries[|entries| - 1];
      MaxRiskIsMax(front);
      assert entries == front + [last];
      assert last in entries;
    }
  }

  lemma {:induction false} SumBelowMax(entries: seq<Entry>)
    ensures RiskSum(entries) <= |entries| as real * MaxRisk(entries)
  {
    if entries != [] {
      var front, last := entries[..|entries| - 1], entries[|entries| - 1];
      SumBelowMax(front);
      MaxRiskIsMax(entries);
      MaxRiskIsMax(front);
      Grow(|front|, MaxRisk(front), MaxRisk(entries));
    }
  }

  lemma Grow(n: nat, low: real, high: real)
    requires low <= high
    ensures n as real * low + high <= (n + 1) as real * high
  {
    var k := n as real;
    assert (n + 1) as real == k + 1.0;
    OneMoreTime(k, high);
    MoreTimes(k, low, high);
  }

  lemma OneMoreTime(k: real, x: real)
    ensures (k + 1.0) * x == k * x + x
  {
  }

  lemma MoreTimes(k: real, low: real, high: real)
    requires k >= 0.0 && low <= high
    ensures k * low <= k * high
  {
    Times(k, high - low);
    assert k * (high - low) == k * high - k * low;
  }

  lemma Times(a: real, b: real)
    requires a >= 0.0 && b >= 0.0
    ensures a * b >= 0.0
  {
  }

  // ---------- the result ----------

  predicate StatsOf(stats: SubjectStats, entries: seq<Entry>) {
    && stats.total == |entries| > 0 && stats.denied == Denials(entries) && stats.maxRisk == MaxRisk(entries)
    && stats.avgRisk == RiskSum(entries) / |entries| as real
  }

  /** The accumulators while the batch is being read: the average is still a sum. */
  predicate Accumulated(stats: SubjectStats, entries: seq<Entry>) {
    && stats.total == |entries| > 0 && stats.denied == Denials(entries) && stats.maxRisk == MaxRisk(entries)
    && stats.avgRisk == RiskSum(entries)
  }

  ghost predicate BySubject(t: map<string, SubjectStats>, entries: seq<Entry>) {
    && (forall s :: s in t ==> StatsOf(t[s], Of(entries, s)))
    && (forall s :: s !in t ==> Of(entries, s) == [])
  }

  ghost predicate Accumulating(t: map<string, SubjectStats>, entries: seq<Entry>) {
    && (forall s :: s in t ==> Accumulated(t[s], Of(entries, s)))
    && (forall s :: s !in t ==> Of(entries, s) == [])
  }

  ghost predicate ByPermission(t: map<string, nat>, entries: seq<Entry>) {
    && (forall p :: p in t ==> t[p] == WithPermission(entries, p) > 0)
    && (forall p :: p !in t ==> WithPermission(entries, p) == 0)
  }

  predicate Descending(s: seq<Entry>) { forall i, j :: 0 <= i < j < |s| ==> Risk(s[i]) >= Risk(s[j]) }

  /** Those of exactly this risk, in their order. */
  ghost function AtRisk(entries: seq<Entry>, risk: real): seq<Entry> {
    if entries == [] then []
    else
      var last := entries[|entries| - 1];
      AtRisk(entries[..|entries| - 1], risk) + if Risk(last) == risk then [last] else []
  }

  /** The same entries by falling risk, those of equal risk in their old order. */
  ghost predicate Ranking(s: seq<Entry>, entries: seq<Entry>) {
    Descending(s) && multiset(s) == multiset(entries) && forall risk :: AtRisk(s, risk) == AtRisk(entries, risk)
  }

  /** The first of the ranking: as many as there are, up to ten; the others are `omitted`. */
  ghost predicate TopRisk(top: seq<Entry>, omitted: seq<Entry>, entries: seq<Entry>) {
    |top| == (if |entries| < TOP_RISK then |entries| else TOP_RISK) && Ranking(top + omitted, entries)
  }

  lemma {:induction false} DenialsCounted(entries: seq<Entry>)
    ensures Denials(entries) == |set i: nat | i < |entries| && !entries[i].granted|
  {
    var at := set i: nat | i < |entries| && !entries[i].granted;
    if entries == [] {
      assert at == {};
    } else {
      var n: nat := |entries| - 1;
      var front := entries[..n];
      DenialsCounted(front);
      assert at == (set i: nat | i < |front| && !front[i].granted) + if !entries[n].granted then {n} else {};
    }
  }

  lemma {:induction false} HighRisksCounted(entries: seq<Entry>)
    ensures HighRisks(entries) == |set i: nat | i < |entries| && entries[i].risk.Some? && entries[i].risk.value >= 0.6|
  {
    var at := set i: nat | i < |entries| && entries[i].risk.Some? && entries[i].risk.value >= 0.6;
    if entries == [] {
      assert at == {};
    } else {
      var n: nat := |entries| - 1;
      var front := entries[..n];
      HighRisksCounted(front);
      assert at == (set i: nat | i < |front| && front[i].risk.Some? && front[i].risk.value >= 0.6)
                   + if IsHighRisk(entries[n]) then {n} else {};
    }
  }

  /** Where a subject occurs, and where it is denied. */
  function PlacesOf(entries: seq<Entry>, s: string): set<nat> {
    set i: nat | i < |entries| && entries[i].subjectId == s
  }

  function DenialsOf(entries: seq<Entry>, s: string): set<nat> {
    set i: nat | i < |entries| && entries[i].subjectId == s && !entries[i].granted
  }

  lemma PlacesStep(front: seq<Entry>, last: Entry, s: string)
    ensures |PlacesOf(front + [last], s)| == |PlacesOf(front, s)| + if last.subjectId == s then 1 else 0
  {
    var n := |front|;
    assert PlacesOf(front + [last], s) == PlacesOf(front, s) + if last.subjectId == s then {n} else {};
    assert n !in PlacesOf(front, s);
  }

  lemma DenialsStep(front: seq<Entry>, last: Entry, s: string)
    ensures |DenialsOf(front + [last], s)|
         == |DenialsOf(front, s)| + if last.subjectId == s && !last.granted then 1 else 0
  {
    var n := |front|;
    assert DenialsOf(front + [last], s)
        == DenialsOf(front, s) + if last.subjectId == s && !last.granted then {n} else {};
    assert n !in DenialsOf(front, s);
  }

  /** What the table holds of a subject, counted over the batch: how often it occurs, how often it was
      denied, and which entries are its own. */
  lemma {:induction false} SubjectCounted(entries: seq<Entry>, s: string)
    ensures |Of(entries, s)| == |PlacesOf(entries, s)| && Denials(Of(entries, s)) == |DenialsOf(entries, s)|
    ensures forall e :: e in Of(entries, s) <==> e in entries && e.subjectId == s
  {
    if entries == [] {
      assert PlacesOf(entries, s) == {} && DenialsOf(entries, s) == {};
    } else {
      hide PlacesOf, DenialsOf, Denials, Of;
      var front, last := entries[..|entries| - 1], entries[|entries| - 1];
      assert entries == front + [last];
      SubjectCounted(front, s);
      PlacesStep(front, last, s);
      DenialsStep(front, last, s);
      OfLast(front, last, s);
      AppendIf(Of(front, s), last, last.subjectId == s);
    }
  }

  lemma {:induction false} PermissionCounted(entries: seq<Entry>, p: string)
    ensures WithPermission(entries, p) == |set i: nat | i < |entries| && entries[i].permission == p|
  {
    var at := set i: nat | i < |entries| && entries[i].permission == p;
    if entries == [] {
      assert at == {};
    } else {
      var n: nat := |entries| - 1;
      var front := entries[..n];
      PermissionCounted(front, p);
      assert at == (set i: nat | i < |front| && front[i].permission == p)
                   + if entries[n].permission == p then {n} else {};
    }
  }

  method Analyze(entries: seq<Entry>) returns (r: Analysis)
    ensures r.totalEntries == |entries| && r.deniedCount == Denials(entries) && r.highRiskCount == HighRisks(entries)
    ensures r.deniedRate == if |entries| > 0 then Denials(entries) as real / |entries| as real else 0.0
    ensures BySubject(r.bySubject, entries) && ByPermission(r.byPermission, entries)
    ensures exists omitted :: TopRisk(r.topRiskEntries, omitted, entries)
    ensures r.deniedCount == |set i: nat | i < |entries| && !entries[i].granted|
    ensures r.highRiskCount == |set i: nat | i < |entries| && entries[i].risk.Some? && entries[i].risk.value >= 0.6|
    ensures |r.topRiskEntries| == if |entries| < 10 then |entries| else 10
  {
    hide BySubject, ByPermission, Accumulating, Of, WithPermission, MaxRisk, TopRisk;
    var total := |entries|;
    var deniedCount, highRiskCount := 0, 0;
    for i := 0 to |entries|
      invariant deniedCount == Denials(entries[..i]) && highRiskCount == HighRisks(entries[..i])
    {
      assert entries[..i + 1][..i] == entries[..i];
      if IsDenied(entries[i]) {
        deniedCount := deniedCount + 1;
      }
      if IsHighRisk(entries[i]) {
        highRiskCount := highRiskCount + 1;
      }
    }
    assert entries[..|entries|] == entries;
    var bySubject, byPermission := Tabulate(entries);
    var sorted := SortByRisk(entries);
    TopOfSorted(sorted, entries);
    var top := if |sorted| > TOP_RISK then sorted[..TOP_RISK] else sorted;
    DenialsCounted(entries);
    HighRisksCounted(entries);
    TopLength(top, entries);
    var deniedRate := if total > 0 then deniedCount as real / total as real else 0.0;
    r := Analysis(total, deniedCount, deniedRate, highRiskCount, bySubject, byPermission, top);
  }

  method Tabulate(entries: seq<Entry>) returns (bySubject: map<string, SubjectStats>, byPermission: map<string, nat>)
    ensures BySubject(bySubject, entries) && ByPermission(byPermission, entries)
  {
    hide BySubject, ByPermission, Accumulating, Of, WithPermission, MaxRisk;
    bySubject, byPermission := map[], map[];
    NothingTabulated();
    for i := 0 to |entries|
      invariant Accumulating(bySubject, entries[..i]) && ByPermission(byPermission, entries[..i])
    {
      var entry := entries[i];
      var stats := if entry.subjectId in bySubject then bySubject[entry.subjectId] else NO_STATS;
      ghost var before := bySubject;
      ghost var countsBefore := byPermission;
      stats := stats.(total := stats.total + 1);
      if IsDenied(entry) {
        stats := stats.(denied := stats.denied + 1);
      }
      var risk := Risk(entry);
      stats := stats.(avgRisk := stats.avgRisk + risk, maxRisk := if risk > stats.maxRisk then risk else stats.maxRisk);
      bySubject := bySubject[entry.subjectId := stats];
      var counted := if entry.permission in byPermission then byPermission[entry.permission] else 0;
      byPermission := byPermission[entry.permission := counted + 1];
      assert entries[..i + 1] == entries[..i] + [entry];
      SubjectStep(before, bySubject, entries[..i], entry);
      PermissionStep(countsBefore, entries[..i], entry);
    }
    assert entries[..|entries|] == entries;
    var rest := bySubject.Keys;
    ghost var sums := bySubject;
    while rest != {}
      invariant rest <= bySubject.Keys == sums.Keys
      invariant forall s :: s in sums ==> bySubject[s] == if s in rest then sums[s] else WithAverage(sums[s])
      decreases |rest|
    {
      var s :| s in rest;
      rest := rest - {s};
      var stats := bySubject[s];
      if stats.total > 0 {
        bySubject := bySubject[s := stats.(avgRisk := stats.avgRisk / stats.total as real)];
      }
    }
    Averaged(sums, bySubject, entries);
  }

  function WithAverage(stats: SubjectStats): SubjectStats {
    if stats.total == 0 then stats else stats.(avgRisk := stats.avgRisk / stats.total as real)
  }

  lemma NothingTabulated()
    ensures Accumulating(map[], []) && ByPermission(map[], [])
  {
  }

  lemma OfLast(front: seq<Entry>, last: Entry, s: string)
    ensures Of(front + [last], s) == if last.subjectId == s then Of(front, s) + [last] else Of(front, s)
    ensures WithPermission(front + [last], s) == WithPermission(front, s) + if last.permission == s then 1 else 0
  {
    var all := front + [last];
    assert all[..|all| - 1] == front && all[|all| - 1] == last;
  }

  /** One more entry in the accumulators. */
  function Added(stats: SubjectStats, e: Entry): SubjectStats {
    SubjectStats(stats.total + 1, stats.denied + (if IsDenied(e) then 1 else 0), stats.avgRisk + Risk(e),
                 if Risk(e) > stats.maxRisk then Risk(e) else stats.maxRisk)
  }

  const NO_STATS := SubjectStats(0, 0, 0.0, 0.0)

  lemma AccumulatedLast(stats: SubjectStats, entries: seq<Entry>, last: Entry)
    requires if entries == [] then stats == NO_STATS else Accumulated(stats, entries)
    ensures Accumulated(Added(stats, last), entries + [last])
  {
    var all := entries + [last];
    assert all[..|all| - 1] == entries && all[|all| - 1] == last;
  }

  lemma SubjectStep(before: map<string, SubjectStats>, after: map<string, SubjectStats>, front: seq<Entry>, last: Entry)
    requires Accumulating(before, front)
    requires after == before[last.subjectId :=
                      Added(if last.subjectId in before then before[last.subjectId] else NO_STATS, last)]
    ensures Accumulating(after, front + [last])
  {
    hide Of, MaxRisk, RiskSum, Denials;
    var prior := if last.subjectId in before then before[last.subjectId] else NO_STATS;
    AccumulatedLast(prior, Of(front, last.subjectId), last);
    forall s ensures Of(front + [last], s) == if last.subjectId == s then Of(front, s) + [last] else Of(front, s) {
      OfLast(front, last, s);
    }
  }

  lemma PermissionStep(before: map<string, nat>, front: seq<Entry>, last: Entry)
    requires ByPermission(before, front)
    ensures var counted := if last.permission in before then before[last.permission] else 0;
            ByPermission(before[last.permission := counted + 1], front + [last])
  {
    hide WithPermission;
    forall p
      ensures WithPermission(front + [last], p) == WithPermission(front, p) + if last.permission == p then 1 else 0
    {
      OfLast(front, last, p);
    }
  }

  lemma Averaged(sums: map<string, SubjectStats>, averages: map<string, SubjectStats>, entries: seq<Entry>)
    requires Accumulating(sums, entries) && averages.Keys == sums.Keys
    requires forall s :: s in sums ==> averages[s] == WithAverage(sums[s])
    ensures BySubject(averages, entries)
  {
    hide Of, MaxRisk, RiskSum, Denials;
    forall s | s in averages ensures StatsOf(averages[s], Of(entries, s)) {
      assert Accumulated(sums[s], Of(entries, s));
    }
    forall s | s !in averages ensures Of(entries, s) == [] {
      assert s !in sums.Keys;
    }
  }

  // ---------- the riskiest entries ----------

  method SortByRisk(entries: seq<Entry>) returns (s: seq<Entry>)
    ensures Ranking(s, entries)
  {
    hide Ranking;
    s := [];
    NothingRanked();
    for i := 0 to |entries|
      invariant Ranking(s, entries[..i])
    {
      var e := entries[i];
      var k := |s|;
      while k > 0 && Risk(s[k - 1]) < Risk(e)
        invariant 0 <= k <= |s| && forall j :: k <= j < |s| ==> Risk(s[j]) < Risk(e)
      {
        k := k - 1;
      }
      Inserted(s, entries[..i], k, e);
      assert entries[..i + 1] == entries[..i] + [e];
      s := s[..k] + [e] + s[k..];
    }
    assert entries[..|entries|] == entries;
  }

  lemma NothingRanked()
    ensures Ranking([], [])
  {
  }

  lemma AtRiskLast(front: seq<Entry>, last: Entry, risk: real)
    ensures AtRisk(front + [last], risk) == AtRisk(front, risk) + if Risk(last) == risk then [last] else []
  {
    assert (front + [last])[..|front|] == front;
  }

  lemma {:induction false} AtRiskConcat(a: seq<Entry>, b: seq<Entry>, risk: real)
    ensures AtRisk(a + b, risk) == AtRisk(a, risk) + AtRisk(b, risk)
  {
    if b == [] {
      assert a + b == a;
    } else {
      var front, last := b[..|b| - 1], b[|b| - 1];
      assert a + b == (a + front) + [last];
      AtRiskConcat(a, front, risk);
      AtRiskLast(a + front, last, risk);
    }
  }

  lemma {:induction false} NoneAtRisk(s: seq<Entry>, risk: real)
    requires forall j :: 0 <= j < |s| ==> Risk(s[j]) != risk
    ensures AtRisk(s, risk) == []
  {
    if s != [] {
      NoneAtRisk(s[..|s| - 1], risk);
    }
  }

  lemma InsertedDescends(s: seq<Entry>, k: nat, e: Entry)
    requires Descending(s) && k <= |s| && (k == 0 || Risk(s[k - 1]) >= Risk(e))
    requires forall j :: k <= j < |s| ==> Risk(s[j]) < Risk(e)
    ensures Descending(s[..k] + [e] + s[k..])
  {
    hide Risk;
    var longer := s[..k] + [e] + s[k..];
    assert forall i :: 0 <= i < k ==> longer[i] == s[i] && Risk(s[i]) >= Risk(e);
    assert forall i :: k < i < |longer| ==> longer[i] == s[i - 1];
  }

  lemma InsertedAtRisk(low: seq<Entry>, high: seq<Entry>, e: Entry, risk: real)
    requires forall j :: 0 <= j < |high| ==> Risk(high[j]) < Risk(e)
    ensures AtRisk(low + [e] + high, risk) == AtRisk(low + high, risk) + if Risk(e) == risk then [e] else []
  {
    hide AtRisk, Risk;
    AtRiskConcat(low, high, risk);
    AtRiskConcat(low + [e], high, risk);
    AtRiskLast(low, e, risk);
    if risk == Risk(e) {
      NoneAtRisk(high, risk);
    }
  }

  lemma Inserted(s: seq<Entry>, entries: seq<Entry>, k: nat, e: Entry)
    requires Ranking(s, entries) && k <= |s| && (k == 0 || Risk(s[k - 1]) >= Risk(e))
    requires forall j :: k <= j < |s| ==> Risk(s[j]) < Risk(e)
    ensures Ranking(s[..k] + [e] + s[k..], entries + [e])
  {
    hide AtRisk, Risk, Descending;
    InsertedDescends(s, k, e);
    var low, high := s[..k], s[k..];
    assert s == low + high;
    assert multiset(low + [e] + high) == multiset(low + high) + multiset{e};
    forall risk ensures AtRisk(low + [e] + high, risk) == AtRisk(entries + [e], risk) {
      InsertedAtRisk(low, high, e, risk);
      AtRiskLast(entries, e, risk);
    }
  }

  lemma RankingLength(s: seq<Entry>, entries: seq<Entry>)
    requires Ranking(s, entries)
    ensures |s| == |entries|
  {
    hide AtRisk, Descending;
    assert |s| == |multiset(s)| && |multiset(entries)| == |entries|;
  }

  lemma TopLength(top: seq<Entry>, entries: seq<Entry>)
    requires exists omitted :: TopRisk(top, omitted, entries)
    ensures |top| == if |entries| < 10 then |entries| else 10
  {
  }

  lemma TopOfSorted(sorted: seq<Entry>, entries: seq<Entry>)
    requires Ranking(sorted, entries)
    ensures var top := if |sorted| > TOP_RISK then sorted[..TOP_RISK] else sorted;
            exists omitted :: TopRisk(top, omitted, entries)
  {
    hide Ranking;
    RankingLength(sorted, entries);
    var top := if |sorted| > TOP_RISK then sorted[..TOP_RISK] else sorted;
    var omitted := sorted[|top|..];
    assert sorted == top + omitted;
    assert TopRisk(top, omitted, entries);
  }

  /** The listed entries fall in risk, with the omitted ones they make up the batch, and none of
      them is less risky than an omitted one. */
  lemma NoneRiskierOmitted(top: seq<Entry>, omitted: seq<Entry>, entries: seq<Entry>)
    requires TopRisk(top, omitted, entries)
    ensures Descending(top) && multiset(top) + multiset(omitted) == multiset(entries)
    ensures forall x, y :: x in top && y in omitted ==> Risk(x) >= Risk(y)
  {
    hide AtRisk, Risk;
    var all := top + omitted;
    assert forall i :: 0 <= i < |top| ==> all[i] == top[i];
    forall x, y | x in top && y in omitted ensures Risk(x) >= Risk(y) {
      var i :| 0 <= i < |top| && top[i] == x;
      var j :| 0 <= j < |omitted| && omitted[j] == y;
      assert all[i] == x && all[|top| + j] == y;
    }
  }

  // ---------- what the analysis conserves ----------

  /** The sums over the table, in whatever order it is walked. */
  ghost function TotalOf(t: map<string, SubjectStats>, subjects: set<string>): nat
    requires subjects <= t.Keys
  {
    if subjects == {} then 0 else var s :| s in subjects; t[s].total + TotalOf(t, subjects - {s})
  }

  ghost function DeniedOf(t: map<string, SubjectStats>, subjects: set<string>): nat
    requires subjects <= t.Keys
  {
    if subjects == {} then 0 else var s :| s in subjects; t[s].denied + DeniedOf(t, subjects - {s})
  }

  ghost function CountOf(t: map<string, nat>, permissions: set<string>): nat
    requires permissions <= t.Keys
  {
    if permissions == {} then 0 else var p :| p in permissions; t[p] + CountOf(t, permissions - {p})
  }

  /** The entries of the given subjects, and of the given permissions. */
  ghost function Among(entries: seq<Entry>, subjects: set<string>): seq<Entry> {
    if entries == [] then []
    else Among(entries[..|entries| - 1], subjects)
         + if entries[|entries| - 1].subjectId in subjects then [entries[|entries| - 1]] else []
  }

  ghost function AmongPermissions(entries: seq<Entry>, permissions: set<string>): nat {
    if entries == [] then 0
    else AmongPermissions(entries[..|entries| - 1], permissions)
         + if entries[|entries| - 1].permission in permissions then 1 else 0
  }

  lemma {:induction false} AmongSplit(entries: seq<Entry>, subjects: set<string>, s: string)
    requires s in subjects
    ensures |Among(entries, subjects)| == |Of(entries, s)| + |Among(entries, subjects - {s})|
    ensures Denials(Among(entries, subjects)) == Denials(Of(entries, s)) + Denials(Among(entries, subjects - {s}))
  {
    hide Denials;
    if entries == [] {
      NoDenials();
    } else {
      var front, last := entries[..|entries| - 1], entries[|entries| - 1];
      AmongSplit(front, subjects, s);
      AppendIf(Among(front, subjects), last, last.subjectId in subjects);
      AppendIf(Of(front, s), last, last.subjectId == s);
      AppendIf(Among(front, subjects - {s}), last, last.subjectId in subjects - {s});
    }
  }

  lemma NoDenials()
    ensures Denials([]) == 0
  {
  }

  lemma AppendIf(front: seq<Entry>, last: Entry, cond: bool)
    ensures Denials(front + if cond then [last] else []) == Denials(front) + if cond && IsDenied(last) then 1 else 0
  {
    if cond {
      DenialsLast(front, last);
    } else {
      assert front + [] == front;
    }
  }

  lemma {:induction false} PermissionSplit(entries: seq<Entry>, permissions: set<string>, p: string)
    requires p in permissions
    ensures AmongPermissions(entries, permissions)
         == WithPermission(entries, p) + AmongPermissions(entries, permissions - {p})
  {
    if entries != [] {
      PermissionSplit(entries[..|entries| - 1], permissions, p);
    }
  }

  lemma DenialsLast(front: seq<Entry>, last: Entry)
    ensures Denials(front + [last]) == Denials(front) + if IsDenied(last) then 1 else 0
  {
    assert (front + [last])[..|front|] == front;
  }

  lemma {:induction false} AmongNone(entries: seq<Entry>)
    ensures Among(entries, {}) == [] && AmongPermissions(entries, {}) == 0
  {
    if entries != [] {
      AmongNone(entries[..|entries| - 1]);
    }
  }

  lemma {:induction false} AmongAll(entries: seq<Entry>, subjects: set<string>)
    ensures (forall e :: e in entries ==> e.subjectId in subjects) ==> Among(entries, subjects) == entries
    ensures (forall e :: e in entries ==> e.permission in subjects) ==> AmongPermissions(entries, subjects) == |entries|
  {
    if entries != [] {
      var front, last := entries[..|entries| - 1], entries[|entries| - 1];
      assert entries == front + [last];
      AmongAll(front, subjects);
    }
  }

  lemma {:induction false} SubjectSums(t: map<string, SubjectStats>, entries: seq<Entry>, subjects: set<string>)
    requires BySubject(t, entries) && subjects <= t.Keys
    ensures TotalOf(t, subjects) == |Among(entries, subjects)|
            && DeniedOf(t, subjects) == Denials(Among(entries, subjects))
  {
    hide Denials, Of, MaxRisk, RiskSum;
    TotalsBySplit(t, entries, subjects);
    DenialsBySplit(t, entries, subjects);
  }

  lemma {:induction false} TotalsBySplit(t: map<string, SubjectStats>, entries: seq<Entry>, subjects: set<string>)
    requires BySubject(t, entries) && subjects <= t.Keys
    ensures TotalOf(t, subjects) == |Among(entries, subjects)|
  {
    hide Denials, Of, MaxRisk, RiskSum, Among;
    if subjects == {} {
      AmongNone(entries);
    } else {
      var s :| s in subjects && TotalOf(t, subjects) == t[s].total + TotalOf(t, subjects - {s});
      AmongSplit(entries, subjects, s);
      TotalsBySplit(t, entries, subjects - {s});
    }
  }

  lemma {:induction false} DenialsBySplit(t: map<string, SubjectStats>, entries: seq<Entry>, subjects: set<string>)
    requires BySubject(t, entries) && subjects <= t.Keys
    ensures DeniedOf(t, subjects) == Denials(Among(entries, subjects))
  {
    hide Of, MaxRisk, RiskSum, Among;
    if subjects == {} {
      AmongNone(entries);
    } else {
      var s :| s in subjects && DeniedOf(t, subjects) == t[s].denied + DeniedOf(t, subjects - {s});
      AmongSplit(entries, subjects, s);
      DenialsBySplit(t, entries, subjects - {s});
    }
  }

  lemma {:induction false} PermissionSums(t: map<string, nat>, entries: seq<Entry>, permissions: set<string>)
    requires ByPermission(t, entries) && permissions <= t.Keys
    ensures CountOf(t, permissions) == AmongPermissions(entries, permissions)
  {
    hide WithPermission, AmongPermissions;
    if permissions == {} {
      AmongNone(entries);
    } else {
      var p :| p in permissions && CountOf(t, permissions) == t[p] + CountOf(t, permissions - {p});
      PermissionSplit(entries, permissions, p);
      PermissionSums(t, entries, permissions - {p});
    }
  }

  lemma {:induction false} EveryoneTabulated(entries: seq<Entry>, e: Entry)
    requires e in entries
    ensures Of(entries, e.subjectId) != [] && WithPermission(entries, e.permission) > 0
  {
    var front, last := entries[..|entries| - 1], entries[|entries| - 1];
    assert entries == front + [last];
    if e in front {
      EveryoneTabulated(front, e);
    }
  }

  /** Nothing is lost and nothing is counted twice: the totals and the denials of the subjects add
      up to those of the batch, and so do the counts of the permissions. */
  lemma CountsConserved(bySubject: map<string, SubjectStats>, byPermission: map<string, nat>, entries: seq<Entry>)
    requires BySubject(bySubject, entries) && ByPermission(byPermission, entries)
    ensures TotalOf(bySubject, bySubject.Keys) == |entries|
    ensures DeniedOf(bySubject, bySubject.Keys) == Denials(entries)
    ensures CountOf(byPermission, byPermission.Keys) == |entries|
  {
    hide Of, WithPermission, Denials, Among, AmongPermissions;
    SubjectSums(bySubject, entries, bySubject.Keys);
    PermissionSums(byPermission, entries, byPermission.Keys);
    forall e | e in entries ensures e.subjectId in bySubject.Keys && e.permission in byPermission.Keys {
      EveryoneTabulated(entries, e);
    }
    AmongAll(entries, bySubject.Keys);
    AmongAll(entries, byPermission.Keys);
  }

  ghost function RiskOf(t: map<string, SubjectStats>, subjects: set<string>): real
    requires subjects <= t.Keys
  {
    if subjects == {} then 0.0
    else var s :| s in subjects; t[s].avgRisk * t[s].total as real + RiskOf(t, subjects - {s})
  }

  lemma RiskSumLast(front: seq<Entry>, last: Entry)
    ensures RiskSum([]) == 0.0
    ensures RiskSum(front + [last]) == RiskSum(front) + match last.risk case None => 0.0 case Some(risk) => risk
  {
    assert (front + [last])[..|front|] == front;
  }

  lemma RiskSumIf(front: seq<Entry>, last: Entry, cond: bool)
    ensures RiskSum(front + if cond then [last] else []) == RiskSum(front) + if cond then Risk(last) else 0.0
  {
    if cond {
      RiskSumLast(front, last);
    } else {
      assert front + [] == front;
    }
  }

  lemma {:induction false} RiskSplit(entries: seq<Entry>, subjects: set<string>, s: string)
    requires s in subjects
    ensures RiskSum(Among(entries, subjects)) == RiskSum(Of(entries, s)) + RiskSum(Among(entries, subjects - {s}))
  {
    hide RiskSum, Risk;
    if entries == [] {
      RiskSumLast([], Entry("", "", true, None));
    } else {
      var front, last := entries[..|entries| - 1], entries[|entries| - 1];
      RiskSplit(front, subjects, s);
      RiskSumIf(Among(front, subjects), last, last.subjectId in subjects);
      RiskSumIf(Of(front, s), last, last.subjectId == s);
      RiskSumIf(Among(front, subjects - {s}), last, last.subjectId in subjects - {s});
    }
  }

  lemma {:induction false} RisksBySplit(t: map<string, SubjectStats>, entries: seq<Entry>, subjects: set<string>)
    requires BySubject(t, entries) && subjects <= t.Keys
    ensures RiskOf(t, subjects) == RiskSum(Among(entries, subjects))
  {
    hide Denials, Of, MaxRisk, RiskSum, Among;
    if subjects == {} {
      AmongNone(entries);
      RiskSumLast([], Entry("", "", true, None));
    } else {
      var s :| s in subjects && RiskOf(t, subjects) == t[s].avgRisk * t[s].total as real + RiskOf(t, subjects - {s});
      RiskSplit(entries, subjects, s);
      RisksBySplit(t, entries, subjects - {s});
      AverageTimes(RiskSum(Of(entries, s)), |Of(entries, s)| as real);
    }
  }

  lemma AverageTimes(sum: real, n: real)
    requires n > 0.0
    ensures sum / n * n == sum
  {
  }

  /** The averages lose no risk: weighed with the subjects' totals they add up to the risk of the
      batch. */
  lemma RiskConserved(bySubject: map<string, SubjectStats>, entries: seq<Entry>)
    requires BySubject(bySubject, entries)
    ensures RiskOf(bySubject, bySubject.Keys) == RiskSum(entries)
  {
    hide Of, WithPermission, Denials, RiskSum, Among, MaxRisk;
    RisksBySplit(bySubject, entries, bySubject.Keys);
    forall e | e in entries ensures e.subjectId in bySubject.Keys {
      EveryoneTabulated(entries, e);
    }
    AmongAll(entries, bySubject.Keys);
  }

  /** No subject's average risk is above its maximum, and the maximum is no entry's underestimate. */
  lemma AverageBelowMax(bySubject: map<string, SubjectStats>, entries: seq<Entry>, s: string)
    requires BySubject(bySubject, entries) && s in bySubject
    ensures bySubject[s].avgRisk <= bySubject[s].maxRisk && bySubject[s].denied <= bySubject[s].total
    ensures forall e :: e in Of(entries, s) ==> Risk(e) <= bySubject[s].maxRisk
  {
    hide Of, RiskSum, MaxRisk, Denials;
    var mine := Of(entries, s);
    SumBelowMax(mine);
    MaxRiskIsMax(mine);
    DenialsAtMost(mine);
    Average(RiskSum(mine), MaxRisk(mine), |mine| as real);
  }

  lemma {:induction false} DenialsAtMost(entries: seq<Entry>)
    ensures Denials(entries) <= |entries|
  {
    if entries != [] {
      DenialsAtMost(entries[..|entries| - 1]);
    }
  }

  lemma Average(sum: real, most: real, n: real)
    requires n > 0.0 && sum <= n * most
    ensures sum / n <= most
  {
    var q := sum / n;
    assert sum == q * n;
    if q > most {
      Exceeds(q, most, n);
    }
  }

  lemma Exceeds(q: real, most: real, n: real)
    requires n > 0.0 && q > most
    ensures q * n > n * most
  {
    Strict(q - most, n);
    assert (q - most) * n == q * n - n * most;
  }

  lemma Strict(a: real, b: real)
    requires a > 0.0 && b > 0.0
    ensures a * b > 0.0
  {
  }
}
