/** The RBAC2 constraint gate of `src/rbac/constraints/validator.rs` with the predicates of
    `src/rbac/constraints/policies.rs`, and what it keeps when every assignment passes it. */
module Constraints {
  import opened Collections

  datatype Result = Ok | Err(error: Violation)

  datatype Violation =
    | SodViolated(policy: string)
    | CardinalityExceeded(role: string)
    | PrerequisiteMissing(required: string)
    | NotAvailable(role: string)

  /** Separation of duty: fewer than `cardinality` of the roles together. */
  datatype SodPolicy = SodPolicy(name: string, roles: set<string>, cardinality: nat)

  datatype CardinalityConstraint = CardinalityConstraint(role: string, maxSubjects: nat)

  datatype PrerequisiteConstraint = PrerequisiteConstraint(role: string, required: string)

  datatype TemporalConstraint = TemporalConstraint(role: string, validFrom: int, validUntil: int)

  datatype ConstraintStore = ConstraintStore(
    ssd: seq<SodPolicy>, dsd: seq<SodPolicy>, cardinality: seq<CardinalityConstraint>,
    prerequisite: seq<PrerequisiteConstraint>, temporal: seq<TemporalConstraint>)

  function NewSodPolicy(name: string, roles: set<string>, cardinality: nat): SodPolicy {
    SodPolicy(name, roles, if cardinality < 1 then 1 else cardinality)
  }

  function NewCardinality(role: string, maxSubjects: nat): CardinalityConstraint {
    CardinalityConstraint(role, if maxSubjects < 1 then 1 else maxSubjects)
  }

  // ---------- the gate ----------

  /** Occurrences, so that a role listed twice counts twice. */
  function CountIn(roles: seq<string>, chosen: set<string>): nat {
    if roles == [] then 0 else (if roles[0] in chosen then 1 else 0) + CountIn(roles[1..], chosen)
  }

  predicate SodAllows(p: SodPolicy, roles: seq<string>) { CountIn(roles, p.roles) < p.cardinality }

  function FirstSodViolation(policies: seq<SodPolicy>, testRoles: seq<string>): Result {
    if policies == [] then Ok
    else if !SodAllows(policies[0], testRoles) then Err(SodViolated(policies[0].name))
    else FirstSodViolation(policies[1..], testRoles)
  }

  /** `validate_ssd` over the roles held, `validate_dsd` over the roles active. */
  function ValidateSod(policies: seq<SodPolicy>, currentRoles: seq<string>, newRole: string): Result {
    if newRole in currentRoles then Ok else FirstSodViolation(policies, currentRoles + [newRole])
  }

  function ValidateCardinality(constraints: seq<CardinalityConstraint>, role: string,
                               currentSubjectCount: nat): Result
  {
    if constraints == [] then Ok
    else if constraints[0].role == role && !(currentSubjectCount < constraints[0].maxSubjects) then
      Err(CardinalityExceeded(role))
    else ValidateCardinality(constraints[1..], role, currentSubjectCount)
  }

  function ValidatePrerequisite(constraints: seq<PrerequisiteConstraint>, role: string,
                                currentRoles: seq<string>): Result
  {
    if constraints == [] then Ok
    else if constraints[0].role == role && constraints[0].required !in currentRoles then
      Err(PrerequisiteMissing(constraints[0].required))
    else ValidatePrerequisite(constraints[1..], role, currentRoles)
  }

  function ValidateTemporal(constraints: seq<TemporalConstraint>, role: string, now: int): Result {
    if constraints == [] then Ok
    else if constraints[0].role == role && !(constraints[0].validFrom <= now <= constraints[0].validUntil) then
      Err(NotAvailable(role))
    else ValidateTemporal(constraints[1..], role, now)
  }

  function ValidateAssignment(store: ConstraintStore, currentRoles: seq<string>, newRole: string,
                              currentSubjectCount: nat, now: int): Result
  {
    var ssd := ValidateSod(store.ssd, currentRoles, newRole);
    if ssd.Err? then ssd
    else
      var cardinality := ValidateCardinality(store.cardinality, newRole, currentSubjectCount);
      if cardinality.Err? then cardinality
      else
        var prerequisite := ValidatePrerequisite(store.prerequisite, newRole, currentRoles);
        if prerequisite.Err? then prerequisite else ValidateTemporal(store.temporal, newRole, now)
  }

  // ---------- what the checks say ----------

  predicate Distinct(s: seq<string>) { forall i, j :: 0 <= i < j < |s| ==> s[i] != s[j] }

  /** Counting occurrences never undercounts the distinct roles, and is exact without repeats. */
  lemma {:induction false} CountBounds(roles: seq<string>, chosen: set<string>)
    ensures |Elements(roles) * chosen| <= CountIn(roles, chosen)
    ensures Distinct(roles) ==> |Elements(roles) * chosen| == CountIn(roles, chosen)
  {
    if roles != [] {
      var first, rest := roles[0], roles[1..];
      CountBounds(rest, chosen);
      assert Elements(roles) == Elements(rest) + {first};
      if first in chosen {
        assert Elements(roles) * chosen == Elements(rest) * chosen + {first};
        if Distinct(roles) {
          assert first !in Elements(rest);
        }
      } else {
        assert Elements(roles) * chosen == Elements(rest) * chosen;
      }
    }
  }

  lemma {:induction false} NoSodViolation(policies: seq<SodPolicy>, testRoles: seq<string>)
    ensures FirstSodViolation(policies, testRoles) == Ok
       <==> forall i :: 0 <= i < |policies| ==> SodAllows(policies[i], testRoles)
  {
    if policies != [] {
      NoSodViolation(policies[1..], testRoles);
      assert policies == [policies[0]] + policies[1..];
    }
  }

  lemma {:induction false} CardinalityMeans(constraints: seq<CardinalityConstraint>, role: string, count: nat)
    ensures ValidateCardinality(constraints, role, count) == Ok
       <==> forall i :: 0 <= i < |constraints| && constraints[i].role == role
                        ==> count < constraints[i].maxSubjects
  {
    if constraints != [] {
      CardinalityMeans(constraints[1..], role, count);
      assert constraints == [constraints[0]] + constraints[1..];
    }
  }

  lemma {:induction false} PrerequisiteMeans(constraints: seq<PrerequisiteConstraint>, role: string,
                                             currentRoles: seq<string>)
    ensures ValidatePrerequisite(constraints, role, currentRoles) == Ok
       <==> forall i :: 0 <= i < |constraints| && constraints[i].role == role
                        ==> constraints[i].required in currentRoles
  {
    if constraints != [] {
      PrerequisiteMeans(constraints[1..], role, currentRoles);
      assert constraints == [constraints[0]] + constraints[1..];
    }
  }

  lemma {:induction false} TemporalMeans(constraints: seq<TemporalConstraint>, role: string, now: int)
    ensures ValidateTemporal(constraints, role, now) == Ok
       <==> forall i :: 0 <= i < |constraints| && constraints[i].role == role
                        ==> constraints[i].validFrom <= now <= constraints[i].validUntil
  {
    if constraints != [] {
      TemporalMeans(constraints[1..], role, now);
      assert constraints == [constraints[0]] + constraints[1..];
    }
  }

  /** No policy is violated by this set of roles. */
  ghost predicate SodHolds(policies: seq<SodPolicy>, roles: set<string>) {
    forall i :: 0 <= i < |policies| ==> |roles * policies[i].roles| < policies[i].cardinality
  }

  /** What is let through obeys every policy; and when each role is listed once and the policies
      are obeyed so far, exactly what would obey them is let through. */
  lemma SodGateExact(policies: seq<SodPolicy>, currentRoles: seq<string>, newRole: string)
    requires SodHolds(policies, Elements(currentRoles))
    ensures ValidateSod(policies, currentRoles, newRole) == Ok
            ==> SodHolds(policies, Elements(currentRoles) + {newRole})
    ensures Distinct(currentRoles) && SodHolds(policies, Elements(currentRoles) + {newRole})
            ==> ValidateSod(policies, currentRoles, newRole) == Ok
  {
    hide CountIn, FirstSodViolation;
    if newRole in currentRoles {
      assert Elements(currentRoles) + {newRole} == Elements(currentRoles);
    } else {
      var test := currentRoles + [newRole];
      assert Elements(test) == Elements(currentRoles) + {newRole};
      NoSodViolation(policies, test);
      forall i | 0 <= i < |policies|
        ensures SodAllows(policies[i], test) ==> |Elements(test) * policies[i].roles| < policies[i].cardinality
        ensures Distinct(currentRoles) && |Elements(test) * policies[i].roles| < policies[i].cardinality
                ==> SodAllows(policies[i], test)
      {
        CountBounds(test, policies[i].roles);
      }
    }
  }

  /** What each of the four checks asks for. */
  ghost predicate Separate(store: ConstraintStore, currentRoles: seq<string>, newRole: string) {
    newRole in currentRoles
    || forall i :: 0 <= i < |store.ssd|
                   ==> CountIn(currentRoles + [newRole], store.ssd[i].roles) < store.ssd[i].cardinality
  }

  ghost predicate HasRoom(store: ConstraintStore, newRole: string, count: nat) {
    forall i :: 0 <= i < |store.cardinality| && store.cardinality[i].role == newRole
                ==> count < store.cardinality[i].maxSubjects
  }

  ghost predicate Prepared(store: ConstraintStore, currentRoles: seq<string>, newRole: string) {
    forall i :: 0 <= i < |store.prerequisite| && store.prerequisite[i].role == newRole
                ==> store.prerequisite[i].required in currentRoles
  }

  ghost predicate Timely(store: ConstraintStore, newRole: string, now: int) {
    forall i :: 0 <= i < |store.temporal| && store.temporal[i].role == newRole
                ==> store.temporal[i].validFrom <= now <= store.temporal[i].validUntil
  }

  /** The gate opens exactly when all four kinds of constraint are met, for every list of held roles;
      and its refusal names the first kind that is not. */
  lemma GateExactly(store: ConstraintStore, currentRoles: seq<string>, newRole: string, count: nat, now: int)
    ensures var r := ValidateAssignment(store, currentRoles, newRole, count, now);
            if !Separate(store, currentRoles, newRole) then r.Err? && r.error.SodViolated?
            else if !HasRoom(store, newRole, count) then r == Err(CardinalityExceeded(newRole))
            else if !Prepared(store, currentRoles, newRole) then r.Err? && r.error.PrerequisiteMissing?
            else if !Timely(store, newRole, now) then r == Err(NotAvailable(newRole))
            else r == Ok
  {
    hide ValidateCardinality, ValidatePrerequisite, ValidateTemporal, FirstSodViolation;
    NoSodViolation(store.ssd, currentRoles + [newRole]);
    SodError(store.ssd, currentRoles + [newRole]);
    CardinalityMeans(store.cardinality, newRole, count);
    PrerequisiteMeans(store.prerequisite, newRole, currentRoles);
    TemporalMeans(store.temporal, newRole, now);
    CardinalityError(store.cardinality, newRole, count);
    PrerequisiteError(store.prerequisite, newRole, currentRoles);
    TemporalError(store.temporal, newRole, now);
  }

  lemma {:induction false} SodError(policies: seq<SodPolicy>, roles: seq<string>)
    ensures var r := FirstSodViolation(policies, roles); r.Err? ==> r.error.SodViolated?
  {
    if policies != [] {
      SodError(policies[1..], roles);
    }
  }

  lemma {:induction false} CardinalityError(constraints: seq<CardinalityConstraint>, role: string, count: nat)
    ensures var r := ValidateCardinality(constraints, role, count); r.Ok? || r == Err(CardinalityExceeded(role))
  {
    if constraints != [] {
      CardinalityError(constraints[1..], role, count);
    }
  }

  lemma {:induction false} PrerequisiteError(constraints: seq<PrerequisiteConstraint>, role: string,
                                             currentRoles: seq<string>)
    ensures var r := ValidatePrerequisite(constraints, role, currentRoles); r.Ok? || r.error.PrerequisiteMissing?
  {
    if constraints != [] {
      PrerequisiteError(constraints[1..], role, currentRoles);
    }
  }

  lemma {:induction false} TemporalError(constraints: seq<TemporalConstraint>, role: string, now: int)
    ensures var r := ValidateTemporal(constraints, role, now); r.Ok? || r == Err(NotAvailable(role))
  {
    if constraints != [] {
      TemporalError(constraints[1..], role, now);
    }
  }

  /** A policy or a bound of none is built as one, and any other as it was asked for. */
  lemma BuiltAtLeastOne(name: string, roles: set<string>, n: nat)
    ensures NewSodPolicy(name, roles, n) == SodPolicy(name, roles, if n == 0 then 1 else n)
    ensures NewCardinality(name, n) == CardinalityConstraint(name, if n == 0 then 1 else n)
  {
  }

  // ---------- runs ----------

  datatype Holding = Holding(subject: string, role: string)

  /** `listing` is the list of held roles that the caller passes to the gate. */
  datatype Event =
    | Assign(subject: string, role: string, listing: seq<string>, now: int)
    | Revoke(subject: string, role: string)

  function RolesOf(held: set<Holding>, subject: string): set<string> {
    set h | h in held && h.subject == subject :: h.role
  }

  function Holders(held: set<Holding>, role: string): set<string> { set h | h in held && h.role == role :: h.subject }

  /** The caller lists the roles that are held, in any order and with any repeats. */
  predicate Possible(held: set<Holding>, e: Event) {
    e.Assign? ==> Elements(e.listing) == RolesOf(held, e.subject)
  }

  predicate Passes(store: ConstraintStore, held: set<Holding>, e: Event)
    requires e.Assign?
  {
    ValidateAssignment(store, e.listing, e.role, |Holders(held, e.role)|, e.now) == Ok
  }

  function After(store: ConstraintStore, held: set<Holding>, e: Event): set<Holding> {
    if e.Revoke? then held - {Holding(e.subject, e.role)}
    else if Passes(store, held, e) then held + {Holding(e.subject, e.role)}
    else held
  }

  predicate Run(store: ConstraintStore, held: set<Holding>, events: seq<Event>)
    decreases |events|
  {
    events == [] || (Possible(held, events[0]) && Run(store, After(store, held, events[0]), events[1..]))
  }

  function Final(store: ConstraintStore, held: set<Holding>, events: seq<Event>): set<Holding>
    decreases |events|
  {
    if events == [] then held else Final(store, After(store, held, events[0]), events[1..])
  }

  ghost predicate WithinBounds(store: ConstraintStore, held: set<Holding>) {
    forall i :: 0 <= i < |store.cardinality|
                ==> |Holders(held, store.cardinality[i].role)| <= store.cardinality[i].maxSubjects
  }

  ghost predicate Separated(store: ConstraintStore, held: set<Holding>) {
    forall s :: SodHolds(store.ssd, RolesOf(held, s))
  }

  lemma FewerRoles(policies: seq<SodPolicy>, roles: set<string>, fewer: set<string>)
    requires SodHolds(policies, roles) && fewer <= roles
    ensures SodHolds(policies, fewer)
  {
    forall i | 0 <= i < |policies| ensures |fewer * policies[i].roles| < policies[i].cardinality {
      SubsetSize(fewer * policies[i].roles, roles * policies[i].roles);
    }
  }

  lemma RolesAfterAdding(held: set<Holding>, subject: string, role: string, s: string)
    ensures RolesOf(held + {Holding(subject, role)}, s) == RolesOf(held, s) + if s == subject then {role} else {}
    ensures Holders(held + {Holding(subject, role)}, s) == Holders(held, s) + if s == role then {subject} else {}
  {
    var added := held + {Holding(subject, role)};
    forall r ensures r in RolesOf(added, s) <==> r in RolesOf(held, s) || (s == subject && r == role) {
      assert r in RolesOf(held, s) <==> Holding(s, r) in held;
      assert r in RolesOf(added, s) <==> Holding(s, r) in added;
    }
    forall x ensures x in Holders(added, s) <==> x in Holders(held, s) || (s == role && x == subject) {
      assert x in Holders(held, s) <==> Holding(x, s) in held;
      assert x in Holders(added, s) <==> Holding(x, s) in added;
    }
  }

  lemma AssignKeeps(store: ConstraintStore, held: set<Holding>, e: Event)
    requires e.Assign? && Possible(held, e) && Passes(store, held, e) && WithinBounds(store, held)
             && Separated(store, held)
    ensures WithinBounds(store, held + {Holding(e.subject, e.role)})
            && Separated(store, held + {Holding(e.subject, e.role)})
  {
    hide RolesOf, Holders, SodHolds, ValidateSod, ValidateCardinality, ValidatePrerequisite, ValidateTemporal;
    var after := held + {Holding(e.subject, e.role)};
    forall s ensures SodHolds(store.ssd, RolesOf(after, s)) {
      RolesAfterAdding(held, e.subject, e.role, s);
      if s == e.subject {
        SodGateExact(store.ssd, e.listing, e.role);
      } else {
        assert RolesOf(after, s) == RolesOf(held, s);
      }
    }
    CardinalityMeans(store.cardinality, e.role, |Holders(held, e.role)|);
    forall i | 0 <= i < |store.cardinality|
      ensures |Holders(after, store.cardinality[i].role)| <= store.cardinality[i].maxSubjects {
      RolesAfterAdding(held, e.subject, e.role, store.cardinality[i].role);
      SubsetSize(Holders(after, store.cardinality[i].role), Holders(held, store.cardinality[i].role) + {e.subject});
    }
  }

  lemma RevokeKeeps(store: ConstraintStore, held: set<Holding>, less: set<Holding>)
    requires less <= held && WithinBounds(store, held) && Separated(store, held)
    ensures WithinBounds(store, less) && Separated(store, less)
  {
    hide SodHolds;
    forall s ensures SodHolds(store.ssd, RolesOf(less, s)) {
      FewerRoles(store.ssd, RolesOf(held, s), RolesOf(less, s));
    }
    forall i | 0 <= i < |store.cardinality|
      ensures |Holders(less, store.cardinality[i].role)| <= store.cardinality[i].maxSubjects {
      SubsetSize(Holders(less, store.cardinality[i].role), Holders(held, store.cardinality[i].role));
    }
  }

  lemma {:induction false} GateKeepsConstraints(store: ConstraintStore, held: set<Holding>, events: seq<Event>)
    requires Run(store, held, events) && WithinBounds(store, held) && Separated(store, held)
    ensures WithinBounds(store, Final(store, held, events)) && Separated(store, Final(store, held, events))
    decreases |events|
  {
    hide WithinBounds, Separated, Possible, Passes;
    if events != [] {
      var e := events[0];
      if e.Revoke? {
        RevokeKeeps(store, held, After(store, held, e));
      } else if Passes(store, held, e) {
        AssignKeeps(store, held, e);
      }
      GateKeepsConstraints(store, After(store, held, e), events[1..]);
    }
  }

  /** The subset form of section 5.3 of ANSI INCITS 359-2004: no subject holds all of any
      `cardinality` of the roles. */
  ghost predicate AnsiSeparated(p: SodPolicy, held: set<Holding>) {
    forall t: set<string>, s: string :: t <= p.roles && |t| >= p.cardinality ==> !(t <= RolesOf(held, s))
  }

  lemma AnsiForm(p: SodPolicy, held: set<Holding>)
    ensures AnsiSeparated(p, held) <==> forall s :: |RolesOf(held, s) * p.roles| < p.cardinality
  {
    if AnsiSeparated(p, held) {
      forall s ensures |RolesOf(held, s) * p.roles| < p.cardinality {
        var t := RolesOf(held, s) * p.roles;
        assert t <= RolesOf(held, s);
      }
    }
    if forall s :: |RolesOf(held, s) * p.roles| < p.cardinality {
      forall t: set<string>, s: string | t <= p.roles && |t| >= p.cardinality ensures !(t <= RolesOf(held, s)) {
        if t <= RolesOf(held, s) {
          SubsetSize(t, RolesOf(held, s) * p.roles);
        }
      }
    }
  }

  /** As the constructor makes it, from whatever cardinality was asked for. */
  ghost predicate Built(p: SodPolicy) {
    exists requested: nat :: p == NewSodPolicy(p.name, p.roles, requested)
  }

  /** Over any run from nobody holding anything: no subject ever holds `cardinality` or more of
      the roles of a policy, and no role has more holders than its bound. */
  lemma NeverViolated(store: ConstraintStore, events: seq<Event>)
    requires Run(store, {}, events)
    requires forall i :: 0 <= i < |store.ssd| ==> Built(store.ssd[i])
    ensures forall i :: 0 <= i < |store.ssd| ==> AnsiSeparated(store.ssd[i], Final(store, {}, events))
    ensures WithinBounds(store, Final(store, {}, events))
  {
    hide AnsiSeparated, RolesOf;
    NobodyHolds(store);
    GateKeepsConstraints(store, {}, events);
    forall i | 0 <= i < |store.ssd| ensures AnsiSeparated(store.ssd[i], Final(store, {}, events)) {
      AnsiForm(store.ssd[i], Final(store, {}, events));
    }
  }

  lemma NobodyHolds(store: ConstraintStore)
    requires forall i :: 0 <= i < |store.ssd| ==> store.ssd[i].cardinality >= 1
    ensures Separated(store, {}) && WithinBounds(store, {})
  {
    forall s ensures RolesOf({}, s) == {} && Holders({}, s) == {} {
    }
    forall s ensures SodHolds(store.ssd, RolesOf({}, s)) {
      assert forall i :: 0 <= i < |store.ssd| ==> {} * store.ssd[i].roles == {};
    }
  }

  function Assigned(subjects: set<string>, role: string): set<Holding> { set s | s in subjects :: Holding(s, role) }

  lemma HoldersAfter(held: set<Holding>, subjects: set<string>, role: string)
    ensures Holders(held + Assigned(subjects, role), role) == Holders(held, role) + subjects
  {
    var after := held + Assigned(subjects, role);
    forall x ensures x in Holders(after, role) <==> x in Holders(held, role) || x in subjects {
      assert x in Holders(held, role) <==> Holding(x, role) in held;
      assert x in Holders(after, role) <==> Holding(x, role) in after;
    }
  }

  /** Why check and write must be one step: when any number of newcomers are checked against one
      true count before any of them is written, they all pass and exceed the bound together
      exactly when the count is below the bound and the count with them above it.  (A bound of
      none is built as one.) */
  lemma RaceExceedsBoundExactly(held: set<Holding>, role: string, requested: nat, newcomers: set<string>, now: int)
    requires newcomers !! Holders(held, role)
    ensures var c := NewCardinality(role, requested);
            var store := ConstraintStore([], [], [c], [], []);
            var count := |Holders(held, role)|;
            (&& ValidateAssignment(store, [], role, count, now) == Ok
             && |Holders(held + Assigned(newcomers, role), role)| > c.maxSubjects)
            <==> count < c.maxSubjects < count + |newcomers|
    ensures NewCardinality(role, requested).maxSubjects >= 1
  {
    var c, count := NewCardinality(role, requested), |Holders(held, role)|;
    hide Holders;
    CardinalityMeans([c], role, count);
    HoldersAfter(held, newcomers, role);
    assert |Holders(held, role) + newcomers| == count + |newcomers|;
    assert [c][0] == c;
  }

  /** Assigning a role again is not always idempotent: separation of duty lets a held role
      through, but a role at its bound is refused even to a subject that is one of its holders. */
  lemma ReassignmentCanBeRefused(c: CardinalityConstraint, currentRoles: seq<string>, now: int)
    requires c.role in currentRoles
    ensures var store := ConstraintStore([], [], [c], [], []);
            && ValidateSod(store.ssd, currentRoles, c.role) == Ok
            && ValidateAssignment(store, currentRoles, c.role, c.maxSubjects, now) == Err(CardinalityExceeded(c.role))
  {
    CardinalityMeans([c], c.role, c.maxSubjects);
  }
}
