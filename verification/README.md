# kirino: verified models of the authentication kernels

This project models the stateful and algorithmic kernels of the kirino authentication library in
Dafny and proves the guarantees its documentation makes for them, over every input and every run.
Where the code does not give a guarantee in full, the condition under which it does is proved to be
exact, by a run that breaks it whenever the condition fails.

`dafny verify dfyconfig.toml` checks everything.

| module | what it is about |
|---|---|
| `Base64Url` | the base64url codec: chunk encoder, streaming 32-bit accumulator decoder |
| `ImportTree`, `ImportTreeRoundTrip` | the parser, tree and printer of grouped imports, and their round trip |
| `Revocation`, `Rotation` | the refresh-token revocation store, and rotation over runs of logins, replays and revocations |
| `JwtRevocation` | the JWT manager and its self-pruning revocation table |
| `OneShot` | the single-use token store |
| `PermissionCache`, `Engine` | the TTL cache with bounded-heap eviction, and the decision engine behind it |
| `GrantResolution` | the tiered grant fold and the order-free rule it computes |
| `Hotp` | one-time codes, and the counter under concurrent compare-and-swap |
| `Pow` | leading zero bits, and the single-use challenge store |
| `Invitations` | the invitation lifecycle |
| `Anomaly` | the sliding-window anomaly detector |
| `Constraints` | the RBAC2 constraint gate |
| `Audit` | the audit analyser |
| `Ordering`, `Collections`, `Bytes`, `Wrappers` | sorted strings, finite sets, bytes and options, shared by the others |

Objects whose methods update fields are classes whose methods are proved against functions on
values; what the library promises is then proved about those functions, over all runs of them.
What a function on values says is also stated apart from it, on plain fields and literal values.
Clocks, random draws, store answers, hashes, MACs and the square root are parameters. Each locked
section is one step.

Where code and documentation differ, the model follows the code:

- `check` in `src/rbac/engine.rs` is documented (lines 27-28) as never caching a store error, but a
  failed lookup of roles is cached as a denial (`Engine.WrongExactly` says for which permissions this
  is wrong, `Engine.AlwaysExactExactly` what it does to runs).
- The permission cache is documented (`src/rbac/cache.rs`, lines 128-130) as never refusing to cache a
  fresh decision; on equal expiries it can evict the decision just made
  (`PermissionCache.FreshDecisionLostExactly`).
- `JwtManager::new` warns about lifetimes above seven days, but the lifetime of exactly seven days is
  already unsafe: the leeway of verification is not counted (`JwtRevocation.WarningMissesSevenDays`).
- Entries older than the longest token lifetime are documented (`src/auth/credential/basic.rs`, lines
  58-59) as never matching again. They can still match for the leeway of verification, and for as long
  as its lookups follow its reading of the clock (`JwtRevocation.CleanedOut`).
- `base64url::decode` promises unique decoding for equal-length texts; `A===` and `====` both decode to
  nothing, because the length test comes before padding is trimmed (`Base64Url.UniqueAtLengthExactly`).
- `AnomalyDetector` documents a window size of zero as an always empty window; it keeps one request
  (`Anomaly.WindowSlides`).
- The rotation store's documentation asks for a TTL equal to the token lifetime. A token is verified
  before the store's lock is held, and the clock is read before the lock as well. So the exact
  requirement adds the longest time from verifying to holding the lock, and the largest age of the
  readings that revocations of sessions record (`Rotation.AtMostOnceExactly`).
- A revocation of the JWT manager reads the clock, then waits for the table, and its insert is
  unconditional (`src/auth/credential/basic.rs`, lines 75 and 236-265). An older call that writes
  second replaces the newer moment and lets a revoked token back in, however short its lifetime
  (`JwtRevocation.OverwrittenByOlder`, `JwtRevocation.RevocationIsForeverExactly`).
- `build_baseline_from_history` is documented (`src/rbac/dynamic/anomaly.rs`, lines 310-312) as finding
  no history once a baseline exists. A baseline supplied after the first observation leaves the history
  in place, and from the hundredth observation on the call replaces the supplied baseline
  (`Anomaly.AnomalyDetector.BuildBaselineFromHistory`).
- `check_and_mark` in `packages/session/src/one_shot.rs` promises to remember a token id until its
  expiry, but a refused replay overwrites that expiry (`OneShot.NeverFreshEarlyExactly`).
- The proof-of-work store holds one seed more than its capacity (`Pow.StoreHoldsOneMore`).
- An invitation's open window ends at 300 seconds for opening but at 301 for accepting
  (`Invitations.WindowInTicks`); its `open_window_secs` parameter is never read.

## Model

| member | source | states |
|---|---|---|
| Base64Url.Encode | src/utils.rs:46-65 | the three-byte chunk loop writes, at every position, the symbol of the sextet that belongs there |
| Base64Url.Decode | src/utils.rs:76-108 | the streaming loop, with its accumulator cut to 32 bits, returns for every text the bytes, or the first error, that the positional reading of the text gives |
| Base64Url.CutByte | src/utils.rs:91-101 | bits shifted out of the 32-bit accumulator never reach an output byte: a byte cut from it is the byte of the whole text |
| Base64Url.EncodingRegroupsBits | src/utils.rs:50-63 | each group of four symbols spells the same 24-bit number as its three bytes, all symbols are of the alphabet, and there are no more than the bits need |
| Base64Url.DecodeInvertsEncode | src/utils.rs:46-65 | decoding an encoding gives the bytes back, for all bytes; encodings have no padding and never length 1 mod 4 |
| Base64Url.EncodeInvertsDecode | src/utils.rs:90-107 | a trimmed text of possible length that decodes is the encoding of what it decodes to |
| Base64Url.DecodesExactly | src/utils.rs:87-107 | for every text and result: it decodes to that result exactly when, trimmed, it is its encoding or its encoding with one surplus zero symbol, and its length is not 1 mod 4 |
| Base64Url.CanonicalWithoutPadding | src/utils.rs:76-108 | section 3.5 of RFC 4648: without padding the decoder accepts exactly the encodings, and encoding gives the text back |
| Base64Url.DecodeInjectiveWithoutPadding | src/utils.rs:76-108 | section 3.5 of RFC 4648: different texts without padding never decode to the same bytes |
| Base64Url.UniqueAtLengthExactly | src/utils.rs:87-107 | the promise of unique decoding at equal length holds for a text that decodes if and only if it has no padding or does not consist of whole groups |
| Base64Url.PaddedSpellingsCollide | src/utils.rs:87-90 | an instance where it fails: three texts that decode to nothing, two of them of one length |
| Base64Url.TableAt | src/utils.rs:47-48 | the alphabet: capitals, small letters, digits, hyphen and underscore, in this order |
| Base64Url.ErrorsExactly | src/utils.rs:76-108 | exactly which error a text gets: for its length, for its first byte outside the alphabet with place and value, or for last bits that no bytes have |
| ImportTree.NormalizeRemainderItems | scripts/enforce_use_groups.py:327-354 | the character loop splits a braced list at the commas of depth zero, stripped, without empty pieces |
| ImportTree.StripExact | scripts/enforce_use_groups.py:327-354 | stripping takes all outer blanks off and nothing else |
| ImportTree.FindMatchingBrace | scripts/enforce_use_groups.py:357-372 | the result is the first place where the depth returns to zero, and -1 exactly when there is none |
| ImportTree.InnerBraces | scripts/enforce_use_groups.py:397-415 | each item that expansion recurses on has fewer braces than the one it came from, so expansion ends on every text |
| ImportTree.BracesCounted | scripts/enforce_use_groups.py:397-415 | that measure is the number of opening braces in the text |
| ImportTree.ExpandLeavesAlone | scripts/enforce_use_groups.py:383-395 | a text without braces, with its first brace not after `::` or with nothing closing that brace is left as it is |
| ImportTree.BuildImportTree | scripts/enforce_use_groups.py:436-450 | the loop builds the tree of all expanded items |
| ImportTree.HasPathInsert | scripts/enforce_use_groups.py:444-449 | inserting a path adds exactly its prefixes |
| ImportTree.SplitOfJoin | scripts/enforce_use_groups.py:444 | splitting a joined path gives its segments back |
| ImportTreeRoundTrip.ItemsOfBracedList | scripts/enforce_use_groups.py:327-354 | splitting a printed braced list gives back its parts, however deep the braces inside them |
| ImportTreeRoundTrip.ItemsOfSpacedList | scripts/enforce_use_groups.py:327-354 | a list as people write it, with any blanks or line ends around braces and parts and a trailing comma or none, gives exactly its parts |
| ImportTreeRoundTrip.ItemsWithoutBraces | scripts/enforce_use_groups.py:349-354 | a text without braces is one item without its outer blanks, or none |
| ImportTreeRoundTrip.ExpandGroup | scripts/enforce_use_groups.py:397-415 | a group with any text behind it expands to the expansions of prefix, part and that text put together |
| ImportTreeRoundTrip.ExpandPrinted | scripts/enforce_use_groups.py:375-415 | splitting and expanding a printed tree lists its leaf paths in printing order |
| ImportTreeRoundTrip.LeavesExact | scripts/enforce_use_groups.py:453-477 | the leaf paths listed are exactly the leaves of the tree, each once |
| ImportTreeRoundTrip.BuiltTree | scripts/enforce_use_groups.py:436-450 | the built tree contains exactly the prefixes of the paths |
| ImportTreeRoundTrip.RoundTrip | scripts/enforce_use_groups.py:375-477 | for every list of plain paths: printing, splitting and expanding gives exactly the paths that no listed path extends, each once |
| ImportTreeRoundTrip.RoundTripIffPrefixFree | scripts/enforce_use_groups.py:375-477 | the original set comes back if and only if no path is a strict prefix of another |
| ImportTreeRoundTrip.PrintingIsIdempotent | scripts/enforce_use_groups.py:436-477 | the tree of what was printed is the same tree and prints the same text |
| ImportTreeRoundTrip.SelfIsPrinted | scripts/enforce_use_groups.py:442-461 | an empty item comes back as `self` in front of everything else, and is lost when it stands alone |
| ImportTreeRoundTrip.PathPrints | scripts/enforce_use_groups.py:453-477 | a single path is printed as it is |
| ImportTreeRoundTrip.NamesPrint | scripts/enforce_use_groups.py:453-477 | two or more names are printed in ascending order between braces, each but the first after a comma and a blank |
| Revocation.RefreshRevocationStore.Record | packages/session/src/revocation.rs:58-64 | recording stamps the session, changes no other, and drops others only from a map of 10,000 and only past the TTL and a minute; then all of those |
| Revocation.RefreshRevocationStore.CheckAndRevoke | packages/session/src/revocation.rs:114-124 | first use exactly when not recorded within the TTL and a minute, and then recorded; answer and state are those of the runs |
| Revocation.RefreshRevocationStore.Revoke | packages/session/src/revocation.rs:99-103 | the whole new state of a revocation, as in the runs |
| Revocation.RefreshRevocationStore.IsRevoked | packages/session/src/revocation.rs:132-139 | revoked exactly when recorded within the window |
| Revocation.RefreshRevocationStore.Cleanup | packages/session/src/revocation.rs:143-147 | keeps exactly the entries still inside the TTL and a minute, unchanged |
| Revocation.PruningIsInvisible | packages/session/src/revocation.rs:58-64 | a store that lacks only entries outside the window answers every sequence of calls like the one that has them |
| Revocation.StoreNeverSeemsToForget | packages/session/src/revocation.rs:99-147 | on a clock that never runs back, every sequence of calls is answered as by a store that never forgets |
| Revocation.HarmlessReadings | packages/session/src/revocation.rs:58-64 | pruning changes no answer on any clock, also one that runs back, as long as it never runs from past a reading's window back into it |
| Revocation.HarmShows | packages/session/src/revocation.rs:143-147 | whenever it does, there are calls at those very readings by which a revocation is forgotten inside its window |
| Revocation.SeemsCompleteExactly | packages/session/src/revocation.rs:99-147 | for any list of clock readings: all calls at them are answered as by a store that never forgets, if and only if the clock never runs from past a reading's window back into it |
| Rotation.TokenManager.VerifyToken | packages/session/src/manager.rs:554-591 | accepted exactly when issuer and audience are right, the expiry is at most a minute past and a configured key signed it; late tokens are told so and all others called invalid |
| Rotation.TokenManager.IssuePair | packages/session/src/manager.rs:351-393 | every claim of both tokens of a pair: type, expiry, user, name, roles, issuer, audience, session and stamp, and the signing key; an error without one |
| Rotation.TokenManager.RefreshRotating | packages/session/src/manager.rs:711-725 | refused as revoked exactly when the token verifies and its session is held within the TTL and a minute, whatever others did to the store between verifying and the locked check; else recorded, and then a new pair for the same user, name and roles with the new session |
| Rotation.RotationIsItsSteps | packages/session/src/manager.rs:711-725 | answer and store of a rotation are those of its three steps in a run, with anything by others in between |
| Rotation.OwnTokensVerify | packages/session/src/manager.rs:662-671 | a manager accepts its own refresh tokens until a minute past their lifetime, and its access tokens never as refresh tokens |
| Rotation.StoreDecidesAsIdeal | packages/session/src/revocation.rs:114-124 | whenever a check of a verified token holds the lock, the pruning store knows its session exactly when it was ever spent |
| Rotation.InvariantKept | packages/session/src/manager.rs:711-725 | every step of logins, of rotations under way (verify, locked check, issue), of revocations and of cleanups keeps the relation between tokens, calls, store and an ideal store |
| Rotation.RotationRefinesIdeal | packages/session/src/manager.rs:711-725 | in every interleaving of any number of rotations, tokens, sessions and calls are those of the ideal protocol in which a session is spent for good |
| Rotation.PassesExactlyWhenUnspent | packages/session/src/manager.rs:711-725 | in every interleaving, a check passes exactly when its session was never checked or revoked before |
| Rotation.NeverUsedTwice | packages/session/src/manager.rs:711-725 | in every interleaving no session passes twice, ever |
| Rotation.ExactlyOnePasses | packages/session/src/revocation.rs:109-111 | of all checks of a session that is not revoked, overlapping or not, exactly one passes |
| Rotation.RevokedSessionNeverRotates | packages/session/src/revocation.rs:99-103 | after its session is revoked no check of it passes, also for a token verified before |
| Rotation.ShortWindowAllowsReuse | packages/session/src/revocation.rs:70-76 | with a shorter store TTL there is an interleaving in which one token passes twice |
| Rotation.AtMostOnceExactly | packages/session/src/revocation.rs:70-76 | in all interleavings sessions pass at most once, if and only if the store TTL is at least the token lifetime, the longest time from verifying to holding the lock, and the largest age of a revocation's reading, taken together |
| Rotation.EachLoginHasOneLiveToken | packages/session/src/manager.rs:351-393 | after any run each login's chain has at most one unspent refresh token, or one rotation cleared and yet to issue, and all its tokens carry the user and roles that logged in |
| JwtRevocation.MemoryRevocationBackend.Revoke | src/auth/credential/basic.rs:73-80 | stamps the key, changes no other, and beyond 50,000 entries drops exactly those older than seven days |
| JwtRevocation.JwtManager.VerifyWithRevocation | src/auth/credential/basic.rs:211-234 | accepted exactly when it verifies at its reading of the clock, and no user, token or session entry is at or after its issue when it is looked up, whatever others do to the table between the lookups |
| JwtRevocation.AcceptsExactly | src/auth/credential/basic.rs:196-234 | exactly which verifications accept: the manager's own signature, at most a minute past the expiry, and no entry at or after the issue under user, id or session; what somebody else signed is never accepted |
| JwtRevocation.AnswerInOneTable | src/auth/credential/basic.rs:211-234 | where the table does not change meanwhile, accepted exactly when it verifies and none of its keys is hit |
| JwtRevocation.JwtManager.Issue | src/auth/credential/basic.rs:168-189 | every claim of the issued token; it verifies exactly until a minute after its lifetime, and is revoked by exactly the later revocations of its user, its id and its session |
| JwtRevocation.JwtManager.RevokeAllForUser | src/auth/credential/basic.rs:241-244 | the new table, and that it hits every token of the user issued up to a second after the reading |
| JwtRevocation.RevocationKills | src/auth/credential/basic.rs:236-265 | a revocation by token, user or session rejects the token at once under the key it writes, also when recording prunes |
| JwtRevocation.DeadStaysDead | src/auth/credential/basic.rs:73-90 | within the window condition, a rejected token stays rejected under the same key through every cleanup and every revocation that does not take the key back to before its issue, whenever they read the clock |
| JwtRevocation.NotResurrected | src/auth/credential/basic.rs:211-270 | over any run in the order of the lock, no verification whose first lookup follows the revocation accepts the token, under the conditions, wherever its three lookups fall |
| JwtRevocation.CrowdedOut | src/auth/credential/basic.rs:73-80 | a run of 50,000 other revocations after which a long-lived revoked token is accepted by a verification whose lookups follow its reading late enough |
| JwtRevocation.CleanedOut | src/auth/credential/basic.rs:267-270 | a cleanup that keeps too little, after which a revoked token is accepted by such a verification |
| JwtRevocation.OverwrittenByOlder | src/auth/credential/basic.rs:73-80 | for every lifetime, a revocation with an older reading that writes second and lets the token back in |
| JwtRevocation.RevocationIsForeverExactly | src/auth/credential/basic.rs:73-94 | revocation is for ever in all runs in the order of the lock, if and only if lifetime, leeway and the longest time from a verification's reading to its last lookup are together below the window, cleanups keep at least as much, and either the writes under one key never go back or no call waits for the lock |
| JwtRevocation.WarningMissesSevenDays | src/auth/credential/basic.rs:125-138 | with the other conditions met, and verifications shorter than 59 minutes, safe exactly up to 167 hours, warned about only from 169 |
| OneShot.OneShotStore.MaybePrune | packages/session/src/one_shot.rs:123-136 | sweeps expired ids at most once a minute |
| OneShot.OneShotStore.CheckAndMark | packages/session/src/one_shot.rs:83-118 | answer and new state; the map never exceeds its ceiling |
| OneShot.CeilingHolds | packages/session/src/one_shot.rs:100-117 | over any run the map never exceeds the ceiling |
| OneShot.UntrackedRefusedExactly | packages/session/src/one_shot.rs:100-115 | an unknown id is refused exactly when as many unexpired ids as the ceiling allows are held |
| OneShot.RefusedExactly | packages/session/src/one_shot.rs:83-118 | an id is refused exactly when unexpired ids meet the ceiling, or when it is remembered: until its expiry, and below the ceiling on until the next sweep is due |
| OneShot.MarksOnlyItsId | packages/session/src/one_shot.rs:83-118 | a call marks its own id with its expiry, changes no other, and forgets only what has expired; at a ceiling of unexpired ids it changes nothing |
| OneShot.FreshTwiceMeansExpired | packages/session/src/one_shot.rs:83-136 | two "fresh" answers for one id, with no earlier expiry presented in between, mean that a reading after the first was at or past its expiry, on any clock |
| OneShot.FreshTwiceOnlyAfterExpiry | packages/session/src/one_shot.rs:83-136 | on a clock that never runs back, and with no earlier expiry presented in between, an id is fresh again only once it has expired |
| OneShot.EarlierExpiryForgets | packages/session/src/one_shot.rs:117 | a refused replay overwrites the expiry all the same: for every earlier expiry, if its own is past the first minute of the clock, a new store has a run of three calls in which the id is fresh again too soon |
| OneShot.CeilingForgets | packages/session/src/one_shot.rs:102-117 | the same in one second and with no sweep due, for every expiry, when other ids fill a new store to its ceiling |
| OneShot.NeverFreshEarlyExactly | packages/session/src/one_shot.rs:83-136 | over all runs of a new store an id is never fresh again before its expiry, if and only if the expiries presented for it later are no earlier, or the ceiling is a single id; and under that condition from every other state as well |
| PermissionCache.TtlPermissionCache.Get | src/rbac/cache.rs:157-170 | a recorded decision that has not expired, or nothing |
| PermissionCache.TtlPermissionCache.Set | src/rbac/cache.rs:182-219 | the cache after caching a decision and enforcing the cap: the cap is kept, the decision expires a TTL after its reading, no other is changed, and nothing is dropped below the cap |
| PermissionCache.TtlPermissionCache.Select | src/rbac/cache.rs:204-213 | whatever order the map is walked in, the bounded heap ends with exactly the smallest pairs of expiry and key |
| PermissionCache.TtlPermissionCache.InvalidateSubject | src/rbac/cache.rs:227-231 | drops exactly the subject's entries |
| PermissionCache.SmallestOfSet | src/rbac/cache.rs:204-213 | the n pairs of lowest rank are n in number and lie below all the others |
| PermissionCache.CapIsMet | src/rbac/cache.rs:198-217 | afterwards at most the maximum number of entries, all unchanged and, once the cap was passed, none expired; exactly the maximum when the live ones were too many |
| PermissionCache.CapEvictsOnlyTheClosest | src/rbac/cache.rs:198-217 | an unexpired entry is dropped only when the live ones are too many, and every entry that stays expires later, or at the same instant with a greater subject and permission |
| PermissionCache.FreshDecisionLostExactly | src/rbac/cache.rs:126-134 | on a clock that never runs back, the decision just cached is evicted if and only if the cache is full of decisions of the same instant with greater keys |
| PermissionCache.FreshDecisionLostOnTie | src/rbac/cache.rs:198-217 | a cache of one in which that happens |
| Engine.RbacEngine.CheckCachedDenyExtra | src/rbac/engine.rs:164-205 | cache hit, deny, extra and error in their order of precedence, with what each caches, whatever others did to the cache since the lookup |
| Engine.RbacEngine.Check | src/rbac/engine.rs:216-252 | granted exactly when an unexpired cached decision says so, or there is none, denials and extras could be read, and the permission is not denied and is extra or defined by a role that was read; a failed lookup of denials or extras denies and caches nothing, and everything else is cached on the cache as others left it |
| Engine.HitIsCheck | src/rbac/engine.rs:164-168 | a call of a run that hits the cache ends as the method does |
| Engine.UpdateIsCheck | src/rbac/engine.rs:216-252 | a call of a run that decides ends as the method does: with its answer and its update, for the cache it missed in, what it read and the cache it finds |
| Engine.FailureIsCheck | src/rbac/engine.rs:180-202 | a call of a run whose lookup of denials or extras fails ends as the method does: denied, and nothing cached |
| Engine.RbacEngine.EffectivePermissions | src/rbac/engine.rs:285-302 | role permissions and extras without denials, and an error when any lookup fails |
| Engine.DecisionIsEffective | src/rbac/engine.rs:285-302 | the decision deny over extra over role is membership in the effective permissions |
| Engine.WrongExactly | src/rbac/engine.rs:230-251 | what is cached differs from the decision of the stores and roles as they were read, if and only if the lookup of roles failed, nothing before it did, and only a role grants the permission |
| Engine.CallIsRight | src/rbac/engine.rs:164-252 | in every interleaving of cache lookups, store reads, lookups of single roles, cache updates, writes and invalidations, each check stands where its own readings put it |
| Engine.CacheIsSourced | src/rbac/engine.rs:164-252 | in every interleaving, a cached decision was made by a check from the stores and roles it read, and its subject has not been invalidated since it was cached |
| Engine.AnswersAreRecent | src/rbac/engine.rs:216-252 | in every interleaving an answer was decided from stores and roles all read after the start of a check that began less than the TTL and the time a check takes before this one; after a failed lookup of denials or extras it is a denial |
| Engine.DecidedMeans | src/rbac/engine.rs:230-251 | such a decision is the one that the stores and roles gave when they were read, but for a failed lookup of roles that hid a grant; a denial for want of a role has read every role of the list |
| Engine.DisciplinedRunsAreExact | src/rbac/engine.rs:141-158 | when subjects touched by a write, also by one that redefines a role of theirs, are invalidated before their next check, no check is under way across an invalidation and roles can be read, every answer is membership in the effective permissions |
| Engine.StaleUntilTtl | src/rbac/cache.rs:104-108 | without the invalidation a revoked permission is reported exactly until the TTL has passed |
| Engine.CachedAcross | src/rbac/engine.rs:142-146 | a check under way across an invalidation caches the answer of before the write |
| Engine.FailureCached | src/rbac/engine.rs:241-251 | one failed role lookup makes a later check refuse in which nothing fails |
| Engine.MovedPermissionIsMissed | src/rbac/engine.rs:230-236 | a permission moved from one held role to another between their lookups is denied, and the denial cached, though the subject has it all along |
| Engine.AlwaysExactExactly | src/rbac/engine.rs:27-28 | all runs are exact, for checks whose own lookups succeed and whose subject is not touched while they read, if and only if all three hold: writes are followed by invalidations, no check is under way across one, and role lookups do not fail |
| GrantResolution.OpaqueExactly | src/rbac/grant_resolution.rs:70-79 | a path is opaque exactly when it starts with a lowercase letter, is made of lowercase letters, digits, `_`, `-` and dots, and has no dot at its end or before another |
| GrantResolution.FoldTiered | src/rbac/grant_resolution.rs:94-107 | folding one more vote gives the verdict of all votes so far with that one |
| GrantResolution.ResolveGrantRowsAt | src/rbac/grant_resolution.rs:218-254 | the row-by-row fold returns the ascending list of exactly the permissions for which somebody votes and nobody in the most specific tier with a vote denies |
| GrantResolution.MostSpecificDecides | src/rbac/grant_resolution.rs:83-88 | that list in words: if a row of scope `user` has a say, the permission is in it exactly when no such row denies; else the rows of scope `group` and the default decide likewise, and only then all other rows; a row has a say when it is unpinned, unexpired and expands to the permission |
| GrantResolution.ExpandMeans | src/rbac/grant_resolution.rs:113-128 | a path of the catalogue is itself, else a domain is exactly its leaves, also when its name is well formed, else a well-formed path is itself and anything else nothing |
| GrantResolution.OrderAndRepetitionDoNotMatter | src/rbac/grant_resolution.rs:211-213 | reordering or repeating rows or defaults does not change the result |
| GrantResolution.SilentRowsDoNotMatter | src/rbac/grant_resolution.rs:203-210 | expired and resource-pinned rows might as well be absent |
| GrantResolution.RowsPullTheirOwnWay | src/rbac/grant_resolution.rs:94-107 | another grant never takes a permission away, another deny never gives one |
| GrantResolution.DenyReaches | src/rbac/grant_resolution.rs:197-200 | a live deny of scope `user` decides; one of any scope but `user` and `group` never takes away a default |
| Hotp.TruncationIsMod31 | src/auth/passport/dynamic_password.rs:132-138 | section 5.3 of RFC 4226: the truncated value is the four selected bytes, big-endian, modulo 2^31 |
| Hotp.FormatShowsCode | src/auth/passport/dynamic_password.rs:141-143 | a formatted code has exactly its digits, all of them digits, and reads back as its number |
| Hotp.CodeIs | src/auth/passport/dynamic_password.rs:100-143 | section 5.3 of RFC 4226: the code of a counter value spells in six digits the four selected bytes, big-endian, modulo 2^31 and a million |
| Hotp.HotpVerifier.CompareExchange | src/auth/passport/dynamic_password.rs:106-112 | replaces the counter exactly when it still has the expected value |
| Hotp.HotpVerifier.Verify | src/auth/passport/dynamic_password.rs:97-126 | with others succeeding in between, a call wins one exchange, or meets another code, or loses all three, and leaves the counter accordingly |
| Hotp.WinsAndLoses | src/auth/passport/dynamic_password.rs:100-123 | a round is won exactly when the code is that of the value loaded and the successes of others since come full circle, and lost when they do not |
| Hotp.RoundIsItsSteps | src/auth/passport/dynamic_password.rs:97-125 | load and exchange with anything by others in between: refused on another code, accepted and counted on by one exactly when the counter is unchanged, given up after the third loss |
| Hotp.InvariantKept | src/auth/passport/dynamic_password.rs:96-125 | every atomic step of every thread keeps counter, successes and the standing of each call consistent |
| Hotp.AdvancesOncePerSuccess | src/auth/passport/dynamic_password.rs:96-125 | under every interleaving the counter has advanced once per accepted call, success n consumed the n-th value and presented its code, and each accepted call is there once |
| Hotp.NoValueTwice | src/auth/passport/dynamic_password.rs:106-112 | two successes consume the same value exactly when a multiple of 2^64 successes lie between |
| Hotp.RefusedForAReason | src/auth/passport/dynamic_password.rs:113-123 | a refused call met another code at some moment since it began, or at least three other calls succeeded since then, with its very code |
| Pow.LeadingZeroBits | src/auth/passport/pow.rs:164-175 | the result is the number of zero bits in front of the first one, and at least k exactly when the big-endian value is below 2^(8n - k) |
| Pow.PowChallenge.Issue | src/auth/passport/pow.rs:96-120 | refuses difficulties outside 4 to 32; else prunes, keeps the newest, adds the seed; what stays besides is live and unchanged |
| Pow.PowChallenge.Verify | src/auth/passport/pow.rs:124-145 | unknown seed, expired seed, then accepted exactly when as many bits of the hash as asked for are zero; and the seed is gone whatever the verdict |
| Pow.OnlyTheOldestGo | src/auth/passport/pow.rs:106-113 | a live seed is dropped only when as many others as the capacity stay, all as young or younger |
| Pow.StoreHoldsOneMore | src/auth/passport/pow.rs:106-118 | once there are as many live seeds as the capacity, every issue leaves one more than that |
| Pow.SeedsAreSingleUse | src/auth/passport/pow.rs:122-130 | over any run every attempt after the first on a seed finds no seed |
| Pow.AcceptedMeansWork | src/auth/passport/pow.rs:124-145 | over any run an accepted proof is for a seed issued within the TTL, with a hash below the bound |
| Invitations.InMemoryInvitationStore.Create | src/invitation/store.rs:82-122 | a new pending invitation, field by field, with its defaults: role member, one use, seven days |
| Invitations.InMemoryInvitationStore.Open | src/invitation/store.rs:125-189 | result and state of opening: mode, expiry, status and window in that order |
| Invitations.InMemoryInvitationStore.Accept | src/invitation/store.rs:191-248 | result and state of accepting; the 16-bit use count never overflows |
| Invitations.InMemoryInvitationStore.Revoke | src/invitation/store.rs:281-297 | revokes from every status, and changes nothing else |
| Invitations.InMemoryInvitationStore.ExpireStale | src/invitation/store.rs:299-318 | expires exactly the pending and opened ones past their expiry, changes no other, and counts them |
| Invitations.OpensExactly | src/invitation/store.rs:140-189 | exactly which invitations open, with how many seconds left, what each refusal says and what it leaves |
| Invitations.AcceptsExactly | src/invitation/store.rs:206-247 | exactly which acceptances succeed, what each refusal says and what it leaves |
| Invitations.TouchKeepsBounds | src/invitation/store.rs:125-297 | every operation keeps the use count within the limit, and counts exactly its own success |
| Invitations.RunCounts | src/invitation/store.rs:191-248 | over any run from any state, the use count grows by exactly the successful acceptances |
| Invitations.RedeemedAtMostLimit | src/invitation/store.rs:238-241 | over any run an invitation is redeemed exactly `use_count` times and at most max(1, `max_uses`) times, fewer while it is live |
| Invitations.FinishedForGood | src/invitation/store.rs:210-216 | once it has left Pending and Opened it never returns and nothing redeems it |
| Invitations.RedeemedInTime | src/invitation/store.rs:218-221 | over any run nobody redeems an invitation after its time, counted from its making |
| Invitations.WindowInTicks | src/invitation/store.rs:173-230 | an opened direct invitation can be opened again for less than 300 and accepted for less than 301 seconds |
| Anomaly.AnomalyDetector.Observe | src/rbac/dynamic/anomaly.rs:192-250 | window, profile, history and baseline after any number of observations: the last requests, their exact shares, the table of the first hundred, learned once unless the host supplied a baseline, and what is retained; and the score |
| Anomaly.AnomalyDetector.RecomputeProfile | src/rbac/dynamic/anomaly.rs:351-363 | the counting and dividing loops give the exact share of each category |
| Anomaly.AnomalyDetector.WithBaseline | src/rbac/dynamic/anomaly.rs:151-154 | supplies a baseline at any time, and what was retained stays |
| Anomaly.AnomalyDetector.TableOfHistory | src/rbac/dynamic/anomaly.rs:313-348 | the counting and dividing loops give the shares of what is retained and their deviations |
| Anomaly.AnomalyDetector.BuildBaselineFromHistory | src/rbac/dynamic/anomaly.rs:313-348 | no change while fewer than a hundred were observed or when nothing is retained, as in every detector that learned by itself; else the table of what is retained takes the place of a supplied baseline |
| Anomaly.AnomalyDetector.PatternDeviation | src/rbac/dynamic/anomaly.rs:265-302 | the mean of the deviations of present and disappeared categories, in whatever order they are met |
| Anomaly.FreqsSumToOne | src/rbac/dynamic/anomaly.rs:351-363 | the shares of a non-empty window are positive and sum to one |
| Anomaly.SharesExactly | src/rbac/dynamic/anomaly.rs:351-363 | a category is in the profile exactly when it occurs, with the number of places where it does among all |
| Anomaly.RootOfVariance | src/rbac/dynamic/anomaly.rs:331-341 | a learned deviation is the root of the unbiased sample variance, of zero for a single sample, and at least a hundredth |
| Anomaly.DistanceInDeviations | src/rbac/dynamic/anomaly.rs:273-284 | a known category counts by how many of its deviations it is from its mean |
| Anomaly.DisjointDrift | src/rbac/dynamic/anomaly.rs:265-302 | the exact deviation of a window that shares no category with the samples learned from |
| Anomaly.ReasonsExactly | src/rbac/dynamic/anomaly.rs:231-248 | high above 0.7, moderate above 0.4, else normal |
| Anomaly.DeviationInUnitInterval | src/rbac/dynamic/anomaly.rs:265-302 | deviation lies in [0, 1] for every profile and every baseline, also a supplied one |
| Anomaly.NoDriftExactly | src/rbac/dynamic/anomaly.rs:265-302 | the deviation from a learned baseline is zero if and only if the window has the very frequencies of the samples learned from |
| Anomaly.WindowSlides | src/rbac/dynamic/anomaly.rs:201-204 | the window is always the last max(1, size) requests |
| Constraints.CountBounds | src/rbac/constraints/policies.rs:66-69 | counting occurrences never undercounts the distinct roles and is exact without repeats |
| Constraints.SodGateExact | src/rbac/constraints/validator.rs:49-67 | what passes obeys every policy, and for lists without repeats exactly what would obey them passes |
| Constraints.CardinalityMeans | src/rbac/constraints/validator.rs:127-144 | passes exactly when the count is below every bound stored for the role |
| Constraints.PrerequisiteMeans | src/rbac/constraints/validator.rs:152-168 | passes exactly when every prerequisite of the role is held |
| Constraints.TemporalMeans | src/rbac/constraints/validator.rs:102-115 | passes exactly when now lies in every window stored for the role |
| Constraints.GateExactly | src/rbac/constraints/validator.rs:180-191 | the gate opens exactly when all four kinds of constraint are met, for every list of roles, and its refusal names the first kind that is not |
| Constraints.BuiltAtLeastOne | src/rbac/constraints/policies.rs:47-57 | a policy or bound of none is built as one, any other as asked for |
| Constraints.GateKeepsConstraints | src/rbac/constraints/validator.rs:180-191 | assignments through the gate and revocations keep every policy and bound |
| Constraints.AnsiForm | src/rbac/constraints/policies.rs:66-69 | the count form agrees with the subset form of section 5.3 of ANSI INCITS 359-2004 |
| Constraints.NeverViolated | src/rbac/constraints/validator.rs:180-191 | over any run no subject holds `cardinality` roles of a policy built by its constructor, and no role exceeds its holder bound |
| Constraints.RaceExceedsBoundExactly | src/rbac/constraints/validator.rs:22-25 | any number of newcomers checked against one true count all pass and together exceed the bound, if and only if the count is below the bound and the count with them above it |
| Constraints.ReassignmentCanBeRefused | src/rbac/constraints/validator.rs:180-191 | a role at its bound is refused even to one of its holders |
| Audit.Analyze | src/rbac/audit.rs:648-709 | totals, denials and entries of risk 0.6 or more by counting places in the batch, tables per subject and permission, rate, and the top ten |
| Audit.SortByRisk | src/rbac/audit.rs:686-690 | a descending rearrangement in which entries of equal risk keep their order |
| Audit.SubjectCounted | src/rbac/audit.rs:657-676 | a subject's totals and denials count its places in the batch, and its entries are those it made |
| Audit.PermissionCounted | src/rbac/audit.rs:676 | a permission's count is that of its places in the batch |
| Audit.CountsConserved | src/rbac/audit.rs:657-676 | totals and denials of the subjects, and counts of the permissions, add up to those of the batch |
| Audit.RiskConserved | src/rbac/audit.rs:670-684 | the averages, weighed with the totals, add up to the risk of the batch |
| Audit.AverageBelowMax | src/rbac/audit.rs:670-684 | no subject's average risk exceeds its maximum, and no entry of the subject does |
| Audit.NoneRiskierOmitted | src/rbac/audit.rs:686-691 | the top list descends, completes the omitted entries to the batch, and has none less risky than an omitted one |
| Ordering.Sort | src/rbac/grant_resolution.rs:252 | the ascending listing of a set of strings, which is unique |
| Ordering.LessMeans | src/rbac/grant_resolution.rs:252 | one string is before another exactly when it is a proper prefix of it or has the lower character where they first differ |

## Left out

- Real cryptography, JWT and JOSE parsing, PEM and JWKS: a token carries the key that signed it and nobody else can make it; hashes and MACs are function parameters.
- Machine integers: seconds, TTLs and counts are unbounded except where width matters (the base64 accumulator, the HOTP counter, invitation use counts); overflow of `i64` time arithmetic is not modelled.
- Floating point: `f64` is modelled by real numbers, so rounding, NaN and infinities are not.
- Concurrency inside a locked section, lock poisoning, task cancellation and memory ordering: a locked section is one step and compare-and-swap is sequentially consistent.
- Engine.DisciplinedRunsAreExact: `check_hierarchical` shares the cache with other decisions and is not part of this model, nor are `check_permission` and the wildcard resolver; permissions are identified with their names.
- Rotation.TokenManager.RefreshRotating: `refresh` without rotation and the lenient verification are not modelled; the length of the final issue of a pair is not bounded.
- ImportTree.BuildImportTree: the nested dictionary is a value that is rebuilt on each insertion, so sharing and updating in place are not modelled.
- ImportTreeRoundTrip.RoundTrip: segments contain no braces, commas, colons or outer blanks; the search for common prefixes, the grouping of statements and the file rewriting are not part of this model.
- JwtRevocation.JwtManager.VerifyWithRevocation: the revocation backend is the in-memory one; shared database backends are not part of this model.
- PermissionCache.TtlPermissionCache.Select: the binary heap is a set from which the greatest pair is taken; its layout is not modelled.
- GrantResolution.ResolveGrantRowsAt: the permission catalogue is a parameter, so the generated list of permissions is not part of this model.
- Hotp.HotpVerifier.Verify: the counter wraps at 2^64, as optimised builds do; the time-based verifier is not modelled.
- Pow.PowChallenge.Issue: which of equally old seeds are evicted is left open, as the map's order leaves it; pruning and inserting are one step, though the code takes the lock twice.
- Constraints.NeverViolated: policies do not change during a run; activation in sessions uses the same predicate and is not repeated.
- Invitations.InMemoryInvitationStore.Create: ids and tokens are drawn fresh; listing and lookup of invitations are not modelled.
- `constant_time_eq` is plain equality of byte strings here; that it takes constant time is not stated.
- Database stores, middleware, the dynamic-policy arbiter, delegation, domains and scopes, password hashing, captcha and the web helpers.
