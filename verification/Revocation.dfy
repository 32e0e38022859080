/** The refresh-token revocation store of `packages/session/src/revocation.rs`: a map that forgets
    entries it believes to be useless, and the proof that nobody can tell. */
module Revocation {

  const REVOCATION_MAX_ENTRIES: nat := 10_000
  const VERIFY_LEEWAY_SECS: int := 60

  type Entries = map<string, int>

  // ---------- one call, on values ----------

  /** Entries whose timestamp is at least `cutoff`. */
  function Retain(entries: Entries, cutoff: int): Entries {
    map sid | sid in entries && entries[sid] >= cutoff :: entries[sid]
  }

  function RecordEntry(entries: Entries, sid: string, now: int, window: int): Entries {
    var inserted := entries[sid := now];
    if |inserted| > REVOCATION_MAX_ENTRIES then Retain(inserted, now - window) else inserted
  }

  predicate Revoked(entries: Entries, sid: string, now: int, window: int) {
    sid in entries && now <= entries[sid] + window
  }

  /** Only a full map drops anything, and only what is past its window. */
  lemma Dropped(entries: Entries, sid: string, now: int, window: int)
    ensures forall s :: s in entries && s != sid && s !in RecordEntry(entries, sid, now, window)
                        ==> |entries| >= REVOCATION_MAX_ENTRIES && entries[s] + window < now
  {
    var inserted := entries[sid := now];
    assert inserted.Keys == if sid in entries then entries.Keys else entries.Keys + {sid};
    assert |inserted.Keys| <= |entries.Keys| + 1;
  }

  // ---------- the store ----------

  class RefreshRevocationStore {
    const refreshTtlSecs: int
    var entries: Entries

    constructor (refreshTtlSecs: int)
      ensures this.refreshTtlSecs == refreshTtlSecs && entries == map[]
    {
      this.refreshTtlSecs := refreshTtlSecs;
      entries := map[];
    }

    /** Nominal lifetime plus the grace that verification allows past the expiry. */
    function WindowSecs(): int { refreshTtlSecs + VERIFY_LEEWAY_SECS }

    method Record(sid: string, now: int)
      modifies this`entries
      ensures entries == RecordEntry(old(entries), sid, now, WindowSecs())
      ensures WindowSecs() >= 0 ==> sid in entries && entries[sid] == now && Revoked(entries, sid, now, WindowSecs())
      ensures forall s :: s in entries && s != sid ==> s in old(entries) && entries[s] == old(entries)[s]
      ensures forall s :: s in old(entries) && s != sid && s !in entries
                          ==> |old(entries)| >= 10_000 && old(entries)[s] + refreshTtlSecs + 60 < now
      ensures |old(entries)[sid := now]| > 10_000
              ==> forall s :: s in entries ==> now <= entries[s] + refreshTtlSecs + 60
    {
      Dropped(entries, sid, now, WindowSecs());
      entries := entries[sid := now];
      if |entries| > REVOCATION_MAX_ENTRIES {
        var cutoff := now - WindowSecs();
        entries := Retain(entries, cutoff);
      }
    }

    method Revoke(sid: string, now: int)
      modifies this`entries
      ensures entries == After(old(entries), WindowSecs(), Call.Revoke(sid, now))
    {
      Record(sid, now);
    }

    method CheckAndRevoke(sid: string, now: int) returns (first: bool)
      modifies this`entries
      ensures first <==> !(sid in old(entries) && now <= old(entries)[sid] + refreshTtlSecs + 60)
      ensures Verdict(first) == Answered(old(entries), WindowSecs(), Call.CheckAndRevoke(sid, now))
      ensures entries == After(old(entries), WindowSecs(), Call.CheckAndRevoke(sid, now))
      ensures if first then WindowSecs() >= 0 ==> sid in entries && entries[sid] == now else entries == old(entries)
    {
      if sid in entries {
        if now <= entries[sid] + WindowSecs() {
          return false;
        }
      }
      Record(sid, now);
      return true;
    }

    method IsRevoked(sid: string, now: int) returns (revoked: bool)
      ensures revoked <==> sid in entries && now <= entries[sid] + refreshTtlSecs + 60
      ensures Verdict(revoked) == Answered(entries, WindowSecs(), Call.IsRevoked(sid, now))
    {
      if sid in entries {
        revoked := now <= entries[sid] + WindowSecs();
      } else {
        revoked := false;
      }
    }

    method Cleanup(now: int)
      modifies this`entries
      ensures entries == After(old(entries), WindowSecs(), Call.Cleanup(now))
      ensures forall s :: s in entries <==> s in old(entries) && now <= old(entries)[s] + refreshTtlSecs + 60
      ensures forall s :: s in entries ==> entries[s] == old(entries)[s]
    {
      var window := WindowSecs();
      entries := map sid | sid in entries && entries[sid] + window >= now :: entries[sid];
    }
  }

  // ---------- runs: the pruning store and one that never forgets ----------

  datatype Call =
    | CheckAndRevoke(sid: string, now: int)
    | Revoke(sid: string, now: int)
    | IsRevoked(sid: string, now: int)
    | Cleanup(now: int)

  datatype Answer = Unit | Verdict(value: bool)

  function Answered(entries: Entries, window: int, call: Call): Answer {
    match call
    case CheckAndRevoke(sid, now) => Verdict(!Revoked(entries, sid, now, window))
    case IsRevoked(sid, now) => Verdict(Revoked(entries, sid, now, window))
    case _ => Unit
  }

  function After(entries: Entries, window: int, call: Call): Entries {
    match call
    case CheckAndRevoke(sid, now) =>
      if Revoked(entries, sid, now, window) then entries else RecordEntry(entries, sid, now, window)
    case Revoke(sid, now) => RecordEntry(entries, sid, now, window)
    case IsRevoked(_, _) => entries
    case Cleanup(now) => Retain(entries, now - window)
  }

  function Answers(entries: Entries, window: int, calls: seq<Call>): seq<Answer>
    decreases |calls|
  {
    if calls == [] then []
    else [Answered(entries, window, calls[0])] + Answers(After(entries, window, calls[0]), window, calls[1..])
  }

  /** The reference store: the same checks, nothing ever dropped. */
  function AfterForever(entries: Entries, window: int, call: Call): Entries {
    match call
    case CheckAndRevoke(sid, now) => if Revoked(entries, sid, now, window) then entries else entries[sid := now]
    case Revoke(sid, now) => entries[sid := now]
    case _ => entries
  }

  function AnswersForever(entries: Entries, window: int, calls: seq<Call>): seq<Answer>
    decreases |calls|
  {
    if calls == [] then []
    else [Answered(entries, window, calls[0])]
         + AnswersForever(AfterForever(entries, window, calls[0]), window, calls[1..])
  }

  ghost predicate ClockNeverRunsBack(calls: seq<Call>) {
    forall i, j :: 0 <= i < j < |calls| ==> calls[i].now <= calls[j].now
  }

  /** `entries` is `full` without some entries that were already outside the window at `clock`. */
  ghost predicate Forgot(entries: Entries, full: Entries, window: int, clock: int) {
    && (forall sid :: sid in entries ==> sid in full && entries[sid] == full[sid])
    && (forall sid :: sid in full && sid !in entries ==> full[sid] + window < clock)
  }

  lemma ForgotStep(entries: Entries, full: Entries, window: int, call: Call)
    requires Forgot(entries, full, window, call.now)
    ensures Answered(entries, window, call) == Answered(full, window, call)
    ensures Forgot(After(entries, window, call), AfterForever(full, window, call), window, call.now)
  {
  }

  /** On a clock that never runs back, pruning and cleanup change no answer of any run. */
  lemma {:induction false} PruningIsInvisible(entries: Entries, full: Entries, window: int, calls: seq<Call>)
    requires ClockNeverRunsBack(calls)
    requires calls != [] ==> Forgot(entries, full, window, calls[0].now)
    ensures Answers(entries, window, calls) == AnswersForever(full, window, calls)
    decreases |calls|
  {
    if calls != [] {
      ForgotStep(entries, full, window, calls[0]);
      PruningIsInvisible(After(entries, window, calls[0]), AfterForever(full, window, calls[0]), window, calls[1..]);
    }
  }

  /** Observational equality with the store that never forgets, from the empty store. */
  lemma StoreNeverSeemsToForget(ttl: int, calls: seq<Call>)
    requires ClockNeverRunsBack(calls)
    ensures Answers(map[], ttl + VERIFY_LEEWAY_SECS, calls) == AnswersForever(map[], ttl + VERIFY_LEEWAY_SECS, calls)
  {
    PruningIsInvisible(map[], map[], ttl + VERIFY_LEEWAY_SECS, calls);
  }

  // ---------- clocks that run back ----------

  function Readings(calls: seq<Call>): seq<int> { seq(|calls|, n requires 0 <= n < |calls| => calls[n].now) }

  /** A reading `k`, a later one past its window, and a still later one back inside it. */
  predicate RunsBackInto(readings: seq<int>, window: int, k: nat, i: nat, j: nat) {
    k < i < j < |readings| && readings[j] <= readings[k] + window < readings[i]
  }

  ghost predicate NeverRunsBackInto(readings: seq<int>, window: int) {
    forall k: nat, i: nat, j: nat :: !RunsBackInto(readings, window, k, i, j)
  }

  /** `entries` is `full` without some entries that a past reading had put outside the window. */
  ghost predicate ForgotInPast(entries: Entries, full: Entries, window: int, past: seq<int>) {
    && (forall sid :: sid in entries ==> sid in full && entries[sid] == full[sid])
    && (forall sid :: sid in full ==> full[sid] in past)
    && (forall sid :: sid in full && sid !in entries ==> Overtaken(past, window, full[sid]))
  }

  ghost predicate Overtaken(past: seq<int>, window: int, reading: int) {
    exists k: nat, i: nat :: k < i < |past| && past[k] == reading && reading + window < past[i]
  }

  lemma OvertakenNow(past: seq<int>, window: int, reading: int, now: int)
    requires reading in past && reading + window < now
    ensures Overtaken(past + [now], window, reading)
  {
    var k: nat :| k < |past| && past[k] == reading;
    assert (past + [now])[k] == reading && (past + [now])[|past|] == now;
  }

  lemma OvertakenIsOutside(past: seq<int>, window: int, reading: int, now: int)
    requires Overtaken(past, window, reading) && NeverRunsBackInto(past + [now], window)
    ensures reading + window < now
  {
    var all := past + [now];
    var k: nat, i: nat :| k < i < |past| && past[k] == reading && reading + window < past[i];
    assert !RunsBackInto(all, window, k, i, |past|);
  }

  lemma OutsideNow(entries: Entries, full: Entries, window: int, past: seq<int>, now: int)
    requires ForgotInPast(entries, full, window, past) && NeverRunsBackInto(past + [now], window)
    ensures Forgot(entries, full, window, now)
  {
    hide Overtaken, NeverRunsBackInto;
    forall sid | sid in full && sid !in entries ensures full[sid] + window < now {
      OvertakenIsOutside(past, window, full[sid], now);
    }
  }

  lemma ReadInPast(full: Entries, window: int, past: seq<int>, call: Call)
    requires forall sid :: sid in full ==> full[sid] in past
    ensures forall sid :: sid in AfterForever(full, window, call)
                          ==> AfterForever(full, window, call)[sid] in past + [call.now]
  {
  }

  lemma StillForgotten(entries: Entries, full: Entries, window: int, past: seq<int>, call: Call)
    requires ForgotInPast(entries, full, window, past) && window >= 0
    requires NeverRunsBackInto(past + [call.now], window)
    ensures Answered(entries, window, call) == Answered(full, window, call)
    ensures ForgotInPast(After(entries, window, call), AfterForever(full, window, call), window, past + [call.now])
  {
    hide Overtaken, NeverRunsBackInto, After, AfterForever, Answered;
    OutsideNow(entries, full, window, past, call.now);
    ForgotStep(entries, full, window, call);
    ReadInPast(full, window, past, call);
    var entries', full' := After(entries, window, call), AfterForever(full, window, call);
    forall sid | sid in full' && sid !in entries' ensures Overtaken(past + [call.now], window, full'[sid]) {
      assert full'[sid] in past;
      OvertakenNow(past, window, full'[sid], call.now);
    }
  }

  lemma {:induction false} HarmlessReadings(entries: Entries, full: Entries, window: int, past: seq<int>,
                                            calls: seq<Call>)
    requires ForgotInPast(entries, full, window, past) && window >= 0
    requires NeverRunsBackInto(past + Readings(calls), window)
    ensures Answers(entries, window, calls) == AnswersForever(full, window, calls)
    decreases |calls|
  {
    hide ForgotInPast, Answered, After, AfterForever;
    if calls != [] {
      var now := calls[0].now;
      assert past + Readings(calls) == past + [now] + Readings(calls[1..]);
      FewerReadings(past + [now], Readings(calls[1..]), window);
      StillForgotten(entries, full, window, past, calls[0]);
      HarmlessReadings(After(entries, window, calls[0]), AfterForever(full, window, calls[0]), window, past + [now],
                       calls[1..]);
    }
  }

  lemma FewerReadings(readings: seq<int>, more: seq<int>, window: int)
    requires NeverRunsBackInto(readings + more, window)
    ensures NeverRunsBackInto(readings, window)
  {
    forall k: nat, i: nat, j: nat ensures !RunsBackInto(readings, window, k, i, j) {
      assert !RunsBackInto(readings + more, window, k, i, j);
    }
  }

  /** The entries before call number `n`, of the store and of the one that never forgets. */
  function EntriesAt(entries: Entries, window: int, calls: seq<Call>, n: nat): Entries
    requires n <= |calls|
  {
    if n == 0 then entries else After(EntriesAt(entries, window, calls, n - 1), window, calls[n - 1])
  }

  function FullAt(full: Entries, window: int, calls: seq<Call>, n: nat): Entries
    requires n <= |calls|
  {
    if n == 0 then full else AfterForever(FullAt(full, window, calls, n - 1), window, calls[n - 1])
  }

  lemma {:induction false} EntriesShift(entries: Entries, window: int, calls: seq<Call>, n: nat)
    requires n < |calls|
    ensures EntriesAt(entries, window, calls, n + 1)
         == EntriesAt(After(entries, window, calls[0]), window, calls[1..], n)
    ensures FullAt(entries, window, calls, n + 1)
         == FullAt(AfterForever(entries, window, calls[0]), window, calls[1..], n)
  {
    hide After, AfterForever;
    if n > 0 {
      EntriesShift(entries, window, calls, n - 1);
    }
  }

  lemma {:induction false} AnswerAt(entries: Entries, window: int, calls: seq<Call>, n: nat)
    requires n < |calls|
    ensures |Answers(entries, window, calls)| == |calls|
    ensures Answers(entries, window, calls)[n] == Answered(EntriesAt(entries, window, calls, n), window, calls[n])
    decreases |calls|
  {
    hide After, Answered;
    AnswersLength(After(entries, window, calls[0]), window, calls[1..]);
    if n > 0 {
      AnswerAt(After(entries, window, calls[0]), window, calls[1..], n - 1);
      EntriesShift(entries, window, calls, n - 1);
    }
  }

  lemma {:induction false} AnswerForeverAt(entries: Entries, window: int, calls: seq<Call>, n: nat)
    requires n < |calls|
    ensures |AnswersForever(entries, window, calls)| == |calls|
    ensures AnswersForever(entries, window, calls)[n] == Answered(FullAt(entries, window, calls, n), window, calls[n])
    decreases |calls|
  {
    hide AfterForever, Answered, After, Answers, EntriesAt;
    AnswersLength(AfterForever(entries, window, calls[0]), window, calls[1..]);
    if n > 0 {
      AnswerForeverAt(AfterForever(entries, window, calls[0]), window, calls[1..], n - 1);
      EntriesShift(entries, window, calls, n - 1);
    }
  }

  lemma {:induction false} AnswersLength(entries: Entries, window: int, calls: seq<Call>)
    ensures |Answers(entries, window, calls)| == |calls| == |AnswersForever(entries, window, calls)|
    decreases |calls|
  {
    if calls != [] {
      AnswersLength(After(entries, window, calls[0]), window, calls[1..]);
      AnswersLength(AfterForever(entries, window, calls[0]), window, calls[1..]);
    }
  }

  /** Revoked at `k`, cleaned up at `i`, and asked about at every other reading. */
  function Harmful(readings: seq<int>, k: nat, i: nat): (calls: seq<Call>)
    ensures Readings(calls) == readings
  {
    seq(|readings|, n requires 0 <= n < |readings| =>
      if n == k then Revoke("a", readings[n]) else if n == i then Cleanup(readings[n]) else IsRevoked("a", readings[n]))
  }

  lemma HarmfulAt(readings: seq<int>, k: nat, i: nat, n: nat)
    requires n < |readings|
    ensures |Harmful(readings, k, i)| == |readings|
    ensures Harmful(readings, k, i)[n] == if n == k then Revoke("a", readings[n])
                                          else if n == i then Cleanup(readings[n]) else IsRevoked("a", readings[n])
  {
  }

  lemma LookingChangesNothing(entries: Entries, window: int, now: int)
    ensures After(entries, window, IsRevoked("a", now)) == entries == AfterForever(entries, window, IsRevoked("a", now))
  {
  }

  lemma Recorded(window: int, now: int)
    ensures After(map[], window, Revoke("a", now)) == map["a" := now] == AfterForever(map[], window, Revoke("a", now))
  {
    var empty: Entries := map[];
    assert |empty["a" := now]| == 1;
  }

  lemma CleanedUp(window: int, recorded: int, now: int)
    requires recorded + window < now
    ensures After(map["a" := recorded], window, Cleanup(now)) == map[]
    ensures AfterForever(map["a" := recorded], window, Cleanup(now)) == map["a" := recorded]
  {
  }

  lemma {:induction false} NothingBefore(readings: seq<int>, window: int, k: nat, i: nat, n: nat)
    requires n <= k < i < |readings|
    ensures var calls := Harmful(readings, k, i);
            |calls| == |readings| && EntriesAt(map[], window, calls, n) == map[] == FullAt(map[], window, calls, n)
  {
    hide Harmful, After, AfterForever;
    HarmfulAt(readings, k, i, 0);
    if n > 0 {
      NothingBefore(readings, window, k, i, n - 1);
      HarmfulAt(readings, k, i, n - 1);
      LookingChangesNothing(map[], window, readings[n - 1]);
    }
  }

  lemma {:induction false} HeldUntil(readings: seq<int>, window: int, k: nat, i: nat, n: nat)
    requires k < n <= i < |readings|
    ensures var calls, held := Harmful(readings, k, i), map["a" := readings[k]];
            |calls| == |readings| && EntriesAt(map[], window, calls, n) == held == FullAt(map[], window, calls, n)
  {
    hide Harmful, After, AfterForever;
    HarmfulAt(readings, k, i, n - 1);
    if n == k + 1 {
      NothingBefore(readings, window, k, i, k);
      Recorded(window, readings[k]);
    } else {
      HeldUntil(readings, window, k, i, n - 1);
      LookingChangesNothing(map["a" := readings[k]], window, readings[n - 1]);
    }
  }

  lemma {:induction false} ForgottenAfter(readings: seq<int>, window: int, k: nat, i: nat, n: nat)
    requires k < i < n <= |readings| && readings[k] + window < readings[i]
    ensures var calls := Harmful(readings, k, i);
            && |calls| == |readings| && EntriesAt(map[], window, calls, n) == map[]
            && FullAt(map[], window, calls, n) == map["a" := readings[k]]
  {
    hide Harmful, After, AfterForever;
    HarmfulAt(readings, k, i, n - 1);
    if n == i + 1 {
      HeldUntil(readings, window, k, i, i);
      CleanedUp(window, readings[k], readings[i]);
    } else {
      ForgottenAfter(readings, window, k, i, n - 1);
      LookingChangesNothing(map[], window, readings[n - 1]);
      LookingChangesNothing(map["a" := readings[k]], window, readings[n - 1]);
    }
  }

  lemma HarmShows(readings: seq<int>, window: int, k: nat, i: nat, j: nat)
    requires RunsBackInto(readings, window, k, i, j) && window >= 0
    ensures var calls := Harmful(readings, k, i);
            |Answers(map[], window, calls)| == |readings| == |AnswersForever(map[], window, calls)|
            && Answers(map[], window, calls)[j] == Verdict(false)
            && AnswersForever(map[], window, calls)[j] == Verdict(true)
  {
    hide EntriesAt, FullAt, Answers, AnswersForever;
    var calls := Harmful(readings, k, i);
    ForgottenAfter(readings, window, k, i, j);
    AnswerAt(map[], window, calls, j);
    AnswerForeverAt(map[], window, calls, j);
  }

  /** Whatever is called at these readings, the store answers as one that never forgets. */
  ghost predicate SeemsComplete(readings: seq<int>, window: int) {
    forall calls: seq<Call> :: Readings(calls) == readings
                               ==> Answers(map[], window, calls) == AnswersForever(map[], window, calls)
  }

  /** Pruning can be noticed exactly on a clock that runs from past some reading's window back into
      it; it may run back otherwise. */
  lemma SeemsCompleteExactly(readings: seq<int>, window: int)
    requires window >= 0
    ensures SeemsComplete(readings, window) <==> NeverRunsBackInto(readings, window)
  {
    hide Answers, AnswersForever, RunsBackInto, Readings, Harmful;
    if NeverRunsBackInto(readings, window) {
      forall calls: seq<Call> | Readings(calls) == readings
        ensures Answers(map[], window, calls) == AnswersForever(map[], window, calls)
      {
        assert [] + Readings(calls) == readings;
        HarmlessReadings(map[], map[], window, [], calls);
      }
    } else {
      var k: nat, i: nat, j: nat :| RunsBackInto(readings, window, k, i, j);
      Within(readings, window, k, i, j);
      HarmShows(readings, window, k, i, j);
      assert Readings(Harmful(readings, k, i)) == readings;
    }
  }

  lemma Within(readings: seq<int>, window: int, k: nat, i: nat, j: nat)
    requires RunsBackInto(readings, window, k, i, j)
    ensures k < i < j < |readings|
  {
  }
}
