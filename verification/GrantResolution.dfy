/** The grant fold of `src/rbac/grant_resolution.rs`: rows of grants and denies over builtin
    defaults, folded one by one into verdicts, and the order-free rule that the fold obeys. */
module GrantResolution {
  import opened Collections
  import opened Ordering
  import opened Wrappers

  datatype GrantRow = GrantRow(scope: string, permission: string, granted: bool, resourceId: Option<string>,
                               expiresAt: Option<int>)

  /** The actions of each domain; the leaves of a domain are `domain.action`. */
  type Catalog = map<string, seq<string>>

  // ---------- which permissions a row speaks about ----------

  function Leaf(domain: string, action: string): string { domain + "." + action }

  predicate IsLeaf(catalog: Catalog, path: string) {
    exists domain :: domain in catalog && exists i :: 0 <= i < |catalog[domain]|
                                                      && path == Leaf(domain, catalog[domain][i])
  }

  function ExpandDomain(catalog: Catalog, domain: string): seq<string> {
    if domain !in catalog then []
    else seq(|catalog[domain]|, i requires 0 <= i < |catalog[domain]| => Leaf(domain, catalog[domain][i]))
  }

  predicate IsLowercase(c: char) { 'a' <= c <= 'z' }

  predicate IsSegmentChar(c: char) { IsLowercase(c) || '0' <= c <= '9' || c == '_' || c == '-' }

  /** The parts between dots; one empty part for the empty string. */
  function Segments(s: string): (r: seq<string>)
    ensures r != []
  {
    if s == [] then [[]]
    else
      var rest := Segments(s[1..]);
      if s[0] == '.' then [[]] + rest else [[s[0]] + rest[0]] + rest[1..]
  }

  predicate IsSegment(seg: string) { seg != [] && forall i :: 0 <= i < |seg| ==> IsSegmentChar(seg[i]) }

  predicate AllSegments(segs: seq<string>) { forall i :: 0 <= i < |segs| ==> IsSegment(segs[i]) }

  predicate IsOpaquePermissionPath(s: string) { s != [] && IsLowercase(s[0]) && AllSegments(Segments(s)) }

  /** Character by character: only letters, digits, `_`, `-` and dots, and no dot at either end or
      next to another dot. */
  predicate Dotted(s: string) {
    && (forall i :: 0 <= i < |s| ==> s[i] == '.' || IsSegmentChar(s[i]))
    && s != [] && s[0] != '.' && s[|s| - 1] != '.'
    && (forall i :: 0 <= i < |s| - 1 ==> !(s[i] == '.' && s[i + 1] == '.'))
  }

  lemma {:induction false} SegmentsDotted(s: string)
    ensures AllSegments(Segments(s)) <==> Dotted(s)
  {
    if s == [] {
      assert !IsSegment(Segments(s)[0]);
    } else {
      var tail := s[1..];
      var rest := Segments(tail);
      SegmentsDotted(tail);
      if s[0] == '.' {
        assert !IsSegment(Segments(s)[0]);
      } else if tail == [] {
        assert rest == [[]] && [s[0]] + [] == [s[0]];
        assert Segments(s) == [[s[0]]];
        assert s == [s[0]];
        FirstSegment([s[0]], []);
        assert IsSegment([s[0]]) <==> IsSegmentChar(s[0]) by {
          assert [s[0]][0] == s[0];
        }
      } else if tail[0] == '.' {
        assert rest == [[]] + Segments(tail[1..]) && [s[0]] + [] == [s[0]];
        assert rest[1..] == Segments(tail[1..]);
        assert Segments(s) == [[s[0]]] + Segments(tail[1..]);
        SegmentsDotted(tail[1..]);
        DottedAfterDot(s);
        FirstSegment([s[0]], Segments(tail[1..]));
        assert IsSegment([s[0]]) <==> IsSegmentChar(s[0]) by {
          assert [s[0]][0] == s[0];
        }
      } else {
        var first := [s[0]] + rest[0];
        assert Segments(s) == [first] + rest[1..];
        FirstSegment(first, rest[1..]);
        FirstSegment(rest[0], rest[1..]);
        assert rest == [rest[0]] + rest[1..];
        FirstChar(tail);
        LongerSegment(s[0], rest[0]);
        DottedCons(s);
      }
    }
  }

  lemma FirstSegment(first: string, rest: seq<string>)
    ensures AllSegments([first] + rest) <==> IsSegment(first) && AllSegments(rest)
  {
    var all := [first] + rest;
    if AllSegments(all) {
      assert IsSegment(all[0]);
      forall i | 0 <= i < |rest| ensures IsSegment(rest[i]) {
        assert all[i + 1] == rest[i];
      }
    }
  }

  lemma FirstChar(s: string)
    requires s != [] && s[0] != '.'
    ensures Segments(s)[0] != []
  {
  }

  lemma LongerSegment(c: char, seg: string)
    requires seg != []
    ensures IsSegment([c] + seg) <==> IsSegmentChar(c) && IsSegment(seg)
  {
    var longer := [c] + seg;
    if IsSegment(longer) {
      assert IsSegmentChar(longer[0]);
      forall i | 0 <= i < |seg| ensures IsSegmentChar(seg[i]) {
        assert longer[i + 1] == seg[i];
      }
    }
  }

  lemma DottedCons(s: string)
    requires |s| > 1 && s[0] != '.' && s[1] != '.'
    ensures Dotted(s) <==> IsSegmentChar(s[0]) && Dotted(s[1..])
  {
    var tail := s[1..];
    if Dotted(tail) && IsSegmentChar(s[0]) {
      assert forall i :: 0 < i < |s| ==> s[i] == tail[i - 1];
    }
  }

  lemma DottedAfterDot(s: string)
    requires |s| > 1 && s[0] != '.' && s[1] == '.'
    ensures Dotted(s) <==> IsSegmentChar(s[0]) && Dotted(s[1..][1..])
  {
    var rest := s[1..][1..];
    assert forall i :: 1 < i < |s| ==> s[i] == rest[i - 2];
    if |s| == 2 {
      assert s[|s| - 1] == '.';
    } else {
      assert rest[0] == s[1 + 1];
    }
  }

  /** A path counts as an opaque permission exactly when it starts with a lowercase letter and is
      well dotted: made of lowercase letters, digits, `_`, `-` and dots, and after each dot comes
      another character that is none. */
  lemma OpaqueExactly(s: string)
    ensures IsOpaquePermissionPath(s) <==> Dotted(s) && IsLowercase(s[0])
    ensures IsOpaquePermissionPath(s)
       <==> && s != "" && 'a' <= s[0] <= 'z'
            && (forall c :: c in s ==> 'a' <= c <= 'z' || '0' <= c <= '9' || c in {'_', '-', '.'})
            && forall i :: 0 <= i < |s| && s[i] == '.' ==> i + 1 < |s| && s[i + 1] != '.'
  {
    SegmentsDotted(s);
    if s != "" && 'a' <= s[0] <= 'z' {
      DottedMeans(s);
    }
  }

  lemma DottedMeans(s: string)
    requires s != "" && 'a' <= s[0] <= 'z'
    ensures Dotted(s) <==> && (forall c :: c in s ==> 'a' <= c <= 'z' || '0' <= c <= '9' || c in {'_', '-', '.'})
                           && forall i :: 0 <= i < |s| && s[i] == '.' ==> i + 1 < |s| && s[i + 1] != '.'
  {
    forall i | 0 <= i < |s| ensures s[i] in s {
    }
  }

  function ExpandGrantPermission(catalog: Catalog, raw: string): seq<string> {
    if IsLeaf(catalog, raw) then [raw]
    else if ExpandDomain(catalog, raw) != [] then ExpandDomain(catalog, raw)
    else if IsOpaquePermissionPath(raw) then [raw]
    else []
  }

  // ---------- the rule ----------

  datatype Vote = Vote(tier: nat, grants: bool)

  function ScopeTier(scope: string): nat { if scope == "user" then 0 else if scope == "group" then 1 else 2 }

  predicate IsVisibleAt(row: GrantRow, now: int) { row.expiresAt.None? || now < row.expiresAt.value }

  /** Live, not pinned to a resource, and expanding to the permission. */
  predicate Speaks(catalog: Catalog, row: GrantRow, now: int, perm: string) {
    row.resourceId.None? && IsVisibleAt(row, now) && perm in ExpandGrantPermission(catalog, row.permission)
  }

  function VoteOf(row: GrantRow): Vote { Vote(ScopeTier(row.scope), row.granted) }

  function Votes(catalog: Catalog, defaults: set<string>, rows: set<GrantRow>, now: int, perm: string): set<Vote> {
    (set row | row in rows && Speaks(catalog, row, now, perm) :: VoteOf(row))
    + if perm in defaults then {Vote(1, true)} else {}
  }

  /** Someone votes, and in the most specific tier with a vote nobody denies. */
  ghost predicate Carried(votes: set<Vote>) {
    exists v :: v in votes && v.grants && forall u :: u in votes ==> v.tier < u.tier || u == v
  }

  /** The pending decision that a set of votes leads to. */
  ghost predicate Decides(votes: set<Vote>, decision: Option<Vote>) {
    match decision
    case None => votes == {}
    case Some(d) =>
      && d in votes && (d.grants ==> Vote(d.tier, false) !in votes)
      && forall u :: u in votes ==> d.tier <= u.tier
  }

  lemma DecidesCarried(votes: set<Vote>, decision: Option<Vote>)
    requires Decides(votes, decision)
    ensures Carried(votes) <==> decision.Some? && decision.value.grants
  {
    if decision.Some? && decision.value.grants {
      forall u | u in votes ensures decision.value.tier < u.tier || u == decision.value {
        assert u == Vote(u.tier, u.grants);
      }
    }
    if Carried(votes) {
      var v :| v in votes && v.grants && forall u :: u in votes ==> v.tier < u.tier || u == v;
      assert decision.value in votes;
    }
  }

  // ---------- the fold ----------

  /** One more vote, whatever the votes before. */
  method FoldTiered(decision: Option<Vote>, tier: nat, granted: bool) returns (d: Option<Vote>)
    ensures d.Some?
    ensures forall votes: set<Vote> :: Decides(votes, decision) ==> Decides(votes + {Vote(tier, granted)}, d)
  {
    d := decision;
    if decision.Some? && decision.value.tier < tier {
    } else if decision.Some? && decision.value.tier == tier {
      if decision.value.grants {
        d := Some(Vote(tier, granted));
      }
    } else {
      d := Some(Vote(tier, granted));
    }
  }

  type Decisions = map<string, Option<Vote>>

  function Pending(decisions: Decisions, perm: string): Option<Vote> {
    if perm in decisions then decisions[perm] else None
  }

  ghost predicate Tallies(decisions: Decisions, catalog: Catalog, defaults: set<string>, rows: set<GrantRow>,
                          now: int)
  {
    forall perm :: Decides(Votes(catalog, defaults, rows, now, perm), Pending(decisions, perm))
  }

  /** In the middle of a row: the permissions in `done` have its vote already. */
  ghost predicate TalliesPartly(decisions: Decisions, catalog: Catalog, defaults: set<string>, rows: set<GrantRow>,
                                now: int, done: seq<string>, vote: Vote)
  {
    forall perm :: Decides(Votes(catalog, defaults, rows, now, perm) + (if perm in done then {vote} else {}),
                           Pending(decisions, perm))
  }

  /** The sorted list of the permissions that the rule grants. */
  ghost predicate IsResolution(catalog: Catalog, defaults: seq<string>, grants: seq<GrantRow>, now: int,
                               r: seq<string>)
  {
    && Ascends(r)
    && forall perm :: perm in r <==> Carried(Votes(catalog, Elements(defaults), Elements(grants), now, perm))
  }

  method ResolveGrantRowsAt(catalog: Catalog, defaults: seq<string>, grants: seq<GrantRow>,
                            now: int) returns (effective: seq<string>)
    ensures IsResolution(catalog, defaults, grants, now, effective)
  {
    hide *;
    var decisions: Decisions := Seeded(defaults);
    SeedTallies(catalog, defaults, now);
    for i := 0 to |grants|
      invariant Tallies(decisions, catalog, Elements(defaults), Elements(grants[..i]), now)
    {
      var grant := grants[i];
      if grant.resourceId.Some? || !IsVisibleAt(grant, now) {
        SilentRow(decisions, catalog, Elements(defaults), grants, i, now);
        continue;
      }
      var tier := ScopeTier(grant.scope);
      var perms := ExpandGrantPermission(catalog, grant.permission);
      ghost var vote := VoteOf(grant);
      VoteIs(grant);
      RowStarts(decisions, catalog, Elements(defaults), Elements(grants[..i]), now, vote);
      for j := 0 to |perms|
        invariant TalliesPartly(decisions, catalog, Elements(defaults), Elements(grants[..i]), now, perms[..j], vote)
      {
        var perm := perms[j];
        var decision := Pending(decisions, perm);
        ghost var before := decisions;
        ghost var pending := decision;
        decisions := decisions - {perm};
        if decision.None? {
          decision := Some(Vote(tier, grant.granted));
          FirstVote(Vote(tier, grant.granted));
        } else {
          decision := FoldTiered(decision, tier, grant.granted);
        }
        if decision.Some? {
          decisions := decisions[perm := decision];
        }
        RowStep(before, decisions, catalog, Elements(defaults), Elements(grants[..i]), now, perms, j, vote, decision);
      }
      RowEnds(decisions, catalog, Elements(defaults), grants, i, now, perms);
    }
    var granted := GrantedOf(decisions);
    effective := Sort(granted);
    assert grants[..|grants|] == grants;
    GrantedCarried(decisions, catalog, Elements(defaults), Elements(grants), now);
    ListsTheSet(granted, catalog, defaults, grants, now, effective);
  }

  function Seeded(defaults: seq<string>): Decisions { map p | p in defaults :: Some(Vote(1, true)) }

  function GrantedOf(decisions: Decisions): set<string> {
    set p | p in decisions && decisions[p].Some? && decisions[p].value.grants
  }

  lemma VoteIs(row: GrantRow)
    ensures VoteOf(row) == Vote(ScopeTier(row.scope), row.granted)
  {
  }

  lemma SeedTallies(catalog: Catalog, defaults: seq<string>, now: int)
    ensures Tallies(Seeded(defaults), catalog, Elements(defaults), Elements<GrantRow>([]), now)
  {
    forall perm
      ensures Decides(Votes(catalog, Elements(defaults), Elements<GrantRow>([]), now, perm),
                      Pending(Seeded(defaults), perm))
    {
      assert Votes(catalog, Elements(defaults), Elements<GrantRow>([]), now, perm)
          == if perm in defaults then {Vote(1, true)} else {};
    }
  }

  lemma FirstVote(vote: Vote)
    ensures forall votes: set<Vote> :: Decides(votes, None) ==> Decides(votes + {vote}, Some(vote))
  {
  }

  lemma OneMoreRow(catalog: Catalog, defaults: set<string>, grants: seq<GrantRow>, i: nat, now: int, perm: string)
    requires i < |grants|
    ensures Votes(catalog, defaults, Elements(grants[..i + 1]), now, perm)
         == Votes(catalog, defaults, Elements(grants[..i]), now, perm)
            + if Speaks(catalog, grants[i], now, perm) then {VoteOf(grants[i])} else {}
  {
    hide Speaks, VoteOf;
    assert Elements(grants[..i + 1]) == Elements(grants[..i]) + {grants[i]} by {
      assert grants[..i + 1] == grants[..i] + [grants[i]];
    }
  }

  lemma SilentRow(decisions: Decisions, catalog: Catalog, defaults: set<string>, grants: seq<GrantRow>, i: nat,
                  now: int)
    requires i < |grants| && (grants[i].resourceId.Some? || !IsVisibleAt(grants[i], now))
    requires Tallies(decisions, catalog, defaults, Elements(grants[..i]), now)
    ensures Tallies(decisions, catalog, defaults, Elements(grants[..i + 1]), now)
  {
    hide Decides, Votes, IsVisibleAt, ExpandGrantPermission;
    forall perm
      ensures Decides(Votes(catalog, defaults, Elements(grants[..i + 1]), now, perm), Pending(decisions, perm))
    {
      OneMoreRow(catalog, defaults, grants, i, now, perm);
      assert Votes(catalog, defaults, Elements(grants[..i + 1]), now, perm)
          == Votes(catalog, defaults, Elements(grants[..i]), now, perm);
    }
  }

  lemma RowStarts(decisions: Decisions, catalog: Catalog, defaults: set<string>, rows: set<GrantRow>, now: int,
                  vote: Vote)
    requires Tallies(decisions, catalog, defaults, rows, now)
    ensures TalliesPartly(decisions, catalog, defaults, rows, now, [], vote)
  {
    hide Decides, Votes;
    forall perm: string
      ensures Decides(Votes(catalog, defaults, rows, now, perm) + (if perm in [] then {vote} else {}),
                      Pending(decisions, perm))
    {
      assert Votes(catalog, defaults, rows, now, perm) + {} == Votes(catalog, defaults, rows, now, perm);
    }
  }

  lemma RowStep(before: Decisions, after: Decisions, catalog: Catalog, defaults: set<string>, rows: set<GrantRow>,
                now: int, perms: seq<string>, j: nat, vote: Vote, decision: Option<Vote>)
    requires j < |perms| && TalliesPartly(before, catalog, defaults, rows, now, perms[..j], vote)
    requires decision.Some? && after == (before - {perms[j]})[perms[j] := decision]
    requires forall votes: set<Vote> :: Decides(votes, Pending(before, perms[j])) ==> Decides(votes + {vote}, decision)
    ensures TalliesPartly(after, catalog, defaults, rows, now, perms[..j + 1], vote)
  {
    hide Decides, Votes;
    assert perms[..j + 1] == perms[..j] + [perms[j]];
    forall perm
      ensures Decides(Votes(catalog, defaults, rows, now, perm) + (if perm in perms[..j + 1] then {vote} else {}),
                      Pending(after, perm))
    {
      var votes := Votes(catalog, defaults, rows, now, perm) + (if perm in perms[..j] then {vote} else {});
      assert Decides(votes, Pending(before, perm));
      if perm == perms[j] {
        assert votes + {vote} == Votes(catalog, defaults, rows, now, perm) + {vote};
      }
    }
  }

  lemma RowEnds(decisions: Decisions, catalog: Catalog, defaults: set<string>, grants: seq<GrantRow>, i: nat, now: int,
                perms: seq<string>)
    requires i < |grants| && grants[i].resourceId.None? && IsVisibleAt(grants[i], now)
    requires perms == ExpandGrantPermission(catalog, grants[i].permission)
    requires TalliesPartly(decisions, catalog, defaults, Elements(grants[..i]), now, perms[..|perms|],
                           VoteOf(grants[i]))
    ensures Tallies(decisions, catalog, defaults, Elements(grants[..i + 1]), now)
  {
    hide Decides, Votes, IsVisibleAt, ExpandGrantPermission, VoteOf;
    assert perms[..|perms|] == perms;
    forall perm
      ensures Decides(Votes(catalog, defaults, Elements(grants[..i + 1]), now, perm), Pending(decisions, perm))
    {
      OneMoreRow(catalog, defaults, grants, i, now, perm);
    }
  }

  lemma GrantedCarried(decisions: Decisions, catalog: Catalog, defaults: set<string>, rows: set<GrantRow>, now: int)
    requires Tallies(decisions, catalog, defaults, rows, now)
    ensures forall perm :: perm in GrantedOf(decisions) <==> Carried(Votes(catalog, defaults, rows, now, perm))
  {
    hide Decides, Votes, Carried;
    forall perm ensures perm in GrantedOf(decisions) <==> Carried(Votes(catalog, defaults, rows, now, perm)) {
      DecidesCarried(Votes(catalog, defaults, rows, now, perm), Pending(decisions, perm));
    }
  }

  lemma ListsTheSet(granted: set<string>, catalog: Catalog, defaults: seq<string>, grants: seq<GrantRow>, now: int,
                    r: seq<string>)
    requires r == Ascending(granted)
    requires forall perm :: perm in granted
                            <==> Carried(Votes(catalog, Elements(defaults), Elements(grants), now, perm))
    ensures IsResolution(catalog, defaults, grants, now, r)
  {
  }

  // ---------- the rule in words ----------

  /** A grantable name stands for itself if it is in the catalogue, else for the leaves of the domain
      it names, else for itself if it is well formed, and else for nothing. */
  lemma ExpandMeans(catalog: Catalog, raw: string)
    ensures var r := ExpandGrantPermission(catalog, raw);
            if exists d, i :: d in catalog && 0 <= i < |catalog[d]| && raw == d + "." + catalog[d][i] then r == [raw]
            else if raw in catalog && catalog[raw] != [] then
              |r| == |catalog[raw]| && forall i :: 0 <= i < |r| ==> r[i] == raw + "." + catalog[raw][i]
            else r == if Dotted(raw) && 'a' <= raw[0] <= 'z' then [raw] else []
  {
    OpaqueExactly(raw);
    if exists d, i :: d in catalog && 0 <= i < |catalog[d]| && raw == d + "." + catalog[d][i] {
      var d, i :| d in catalog && 0 <= i < |catalog[d]| && raw == d + "." + catalog[d][i];
      assert raw == Leaf(d, catalog[d][i]);
    }
  }

  /** A row with a say about the permission. */
  predicate HasSay(catalog: Catalog, grants: seq<GrantRow>, now: int, perm: string, row: GrantRow) {
    && row in grants && row.resourceId == None
    && (row.expiresAt == None || row.expiresAt.value > now)
    && perm in ExpandGrantPermission(catalog, row.permission)
  }

  ghost predicate HasVote(votes: set<Vote>, tier: nat) { Vote(tier, true) in votes || Vote(tier, false) in votes }

  lemma CarriedByTier(votes: set<Vote>)
    requires forall v :: v in votes ==> v.tier <= 2
    ensures Carried(votes) <==> if HasVote(votes, 0) then Vote(0, false) !in votes
                                else if HasVote(votes, 1) then Vote(1, false) !in votes
                                else HasVote(votes, 2) && Vote(2, false) !in votes
  {
    forall v | v in votes ensures v.tier in {0, 1, 2} && v == Vote(v.tier, v.grants) {
    }
    var tier := if HasVote(votes, 0) then 0 else if HasVote(votes, 1) then 1 else 2;
    if HasVote(votes, tier) && Vote(tier, false) !in votes {
      assert Vote(tier, true) in votes;
      assert forall u :: u in votes ==> tier < u.tier || u == Vote(tier, true);
    }
    if Carried(votes) {
      var w :| w in votes && w.grants && forall u :: u in votes ==> w.tier < u.tier || u == w;
      assert Vote(tier, false) in votes || Vote(tier, true) in votes || votes == {};
    }
  }

  /** The votes are those of the rows with a say, and that of the default. */
  lemma VoteOfRow(catalog: Catalog, defaults: seq<string>, grants: seq<GrantRow>, now: int, perm: string, tier: nat,
                  grants': bool)
    ensures Vote(tier, grants') in Votes(catalog, Elements(defaults), Elements(grants), now, perm)
       <==> || (exists row :: HasSay(catalog, grants, now, perm, row) && row.granted == grants'
                              && (row.scope == "user" <==> tier == 0) && (row.scope == "group" <==> tier == 1)
                              && tier <= 2)
            || (perm in defaults && tier == 1 && grants')
  {
    hide ExpandGrantPermission;
    var votes := Votes(catalog, Elements(defaults), Elements(grants), now, perm);
    if Vote(tier, grants') in votes && !(perm in defaults && tier == 1 && grants') {
      var row :| row in Elements(grants) && Speaks(catalog, row, now, perm) && VoteOf(row) == Vote(tier, grants');
      assert HasSay(catalog, grants, now, perm, row);
    }
    if row :| HasSay(catalog, grants, now, perm, row) && row.granted == grants'
              && (row.scope == "user" <==> tier == 0) && (row.scope == "group" <==> tier == 1) && tier <= 2 {
      assert row in Elements(grants) && Speaks(catalog, row, now, perm) && VoteOf(row) == Vote(tier, grants');
    }
  }

  /** If a row for the user has a say, the permission is granted exactly when no such row denies.
      Otherwise the rows for a group and the default decide in the same way, and only then the
      rest. */
  lemma MostSpecificDecides(catalog: Catalog, defaults: seq<string>, grants: seq<GrantRow>, now: int, r: seq<string>,
                            perm: string)
    requires IsResolution(catalog, defaults, grants, now, r)
    ensures if exists row :: HasSay(catalog, grants, now, perm, row) && row.scope == "user" then
              perm in r <==> forall row :: HasSay(catalog, grants, now, perm, row) && row.scope == "user"
                                           ==> row.granted
            else if
              perm in defaults || exists row :: HasSay(catalog, grants, now, perm, row) && row.scope == "group"
            then
              perm in r <==> forall row :: HasSay(catalog, grants, now, perm, row) && row.scope == "group"
                                           ==> row.granted
            else
              perm in r <==> && (exists row :: HasSay(catalog, grants, now, perm, row))
                             && forall row :: HasSay(catalog, grants, now, perm, row) ==> row.granted
  {
    hide HasSay, Votes, Carried;
    var votes := Votes(catalog, Elements(defaults), Elements(grants), now, perm);
    forall tier: nat, g: bool
      ensures Vote(tier, g) in votes
         <==> || (exists row :: HasSay(catalog, grants, now, perm, row) && row.granted == g
                                && (row.scope == "user" <==> tier == 0) && (row.scope == "group" <==> tier == 1)
                                && tier <= 2)
              || (perm in defaults && tier == 1 && g)
    {
      VoteOfRow(catalog, defaults, grants, now, perm, tier, g);
    }
    forall v | v in votes ensures v.tier <= 2 {
      assert v == Vote(v.tier, v.grants);
    }
    CarriedByTier(votes);
  }

  // ---------- what the rule implies ----------

  /** The result depends only on which rows and which defaults there are: reordering them,
      repeating them and interleaving repeats changes nothing. */
  lemma OrderAndRepetitionDoNotMatter(catalog: Catalog, defaults: seq<string>, defaults': seq<string>,
                                      grants: seq<GrantRow>, grants': seq<GrantRow>, now: int, r: seq<string>,
                                      r': seq<string>)
    requires Elements(defaults) == Elements(defaults') && Elements(grants) == Elements(grants')
    requires IsResolution(catalog, defaults, grants, now, r) && IsResolution(catalog, defaults', grants', now, r')
    ensures r == r'
  {
    hide Carried, Votes;
    forall perm ensures perm in r <==> perm in r' {
    }
    AscendsUnique(r, r');
  }

  /** Rows that are expired or pinned to a resource might as well not be there. */
  lemma SilentRowsDoNotMatter(catalog: Catalog, defaults: seq<string>, grants: seq<GrantRow>, grants': seq<GrantRow>,
                              now: int, r: seq<string>, r': seq<string>)
    requires forall row :: row in grants' <==> row in grants && row.resourceId.None? && IsVisibleAt(row, now)
    requires IsResolution(catalog, defaults, grants, now, r) && IsResolution(catalog, defaults, grants', now, r')
    ensures r == r'
  {
    forall perm ensures perm in r <==> perm in r' {
      assert Votes(catalog, Elements(defaults), Elements(grants), now, perm)
          == Votes(catalog, Elements(defaults), Elements(grants'), now, perm) by {
        hide ExpandGrantPermission;
      }
    }
    AscendsUnique(r, r');
  }

  lemma VotesWithRow(catalog: Catalog, defaults: seq<string>, grants: seq<GrantRow>, row: GrantRow, now: int,
                     perm: string)
    ensures Votes(catalog, Elements(defaults), Elements(grants + [row]), now, perm)
         == Votes(catalog, Elements(defaults), Elements(grants), now, perm)
            + if Speaks(catalog, row, now, perm) then {VoteOf(row)} else {}
  {
    hide Speaks, VoteOf;
    assert Elements(grants + [row]) == Elements(grants) + {row};
  }

  /** Another grant never takes a permission away, and another deny never gives one. */
  lemma RowsPullTheirOwnWay(catalog: Catalog, defaults: seq<string>, grants: seq<GrantRow>, row: GrantRow, now: int,
                            r: seq<string>, r': seq<string>, perm: string)
    requires IsResolution(catalog, defaults, grants, now, r) && IsResolution(catalog, defaults, grants + [row], now, r')
    ensures row.granted && perm in r ==> perm in r'
    ensures !row.granted && perm in r' ==> perm in r
  {
    hide Votes, Speaks, ScopeTier, Ascends;
    VotesWithRow(catalog, defaults, grants, row, now, perm);
    MoreVotes(Votes(catalog, Elements(defaults), Elements(grants), now, perm), VoteOf(row));
  }

  lemma MoreVotes(votes: set<Vote>, vote: Vote)
    ensures vote.grants && Carried(votes) ==> Carried(votes + {vote})
    ensures !vote.grants && Carried(votes + {vote}) ==> Carried(votes)
  {
    if vote.grants && Carried(votes) {
      var v :| v in votes && v.grants && forall u :: u in votes ==> v.tier < u.tier || u == v;
      var w := if vote.tier < v.tier then vote else v;
      assert w in votes + {vote};
      assert vote.tier == v.tier ==> vote == v;
    }
  }

  /** A live deny for the user decides, and a global deny never takes away a builtin default. */
  lemma DenyReaches(catalog: Catalog, defaults: seq<string>, grants: seq<GrantRow>, row: GrantRow, now: int,
                    r: seq<string>, r': seq<string>, perm: string)
    requires IsResolution(catalog, defaults, grants, now, r) && IsResolution(catalog, defaults, grants + [row], now, r')
    requires Speaks(catalog, row, now, perm) && !row.granted
    ensures row.scope == "user" ==> perm !in r'
    ensures row.scope != "user" && row.scope != "group" && perm in defaults ==> (perm in r' <==> perm in r)
  {
    hide Speaks, Ascends;
    VotesWithRow(catalog, defaults, grants, row, now, perm);
    var votes := Votes(catalog, Elements(defaults), Elements(grants), now, perm);
    assert VoteOf(row) in votes + {VoteOf(row)};
    if ScopeTier(row.scope) == 2 && perm in defaults {
      assert Vote(1, true) in votes;
      LateDeny(votes, VoteOf(row), Vote(1, true));
    }
  }

  lemma LateDeny(votes: set<Vote>, late: Vote, earlier: Vote)
    requires earlier in votes && earlier.tier < late.tier
    ensures Carried(votes + {late}) <==> Carried(votes)
  {
    if Carried(votes) {
      var v :| v in votes && v.grants && forall u :: u in votes ==> v.tier < u.tier || u == v;
      assert v in votes + {late};
    }
  }
}
