# Proxiima, verified in part

A Dafny model of the parts of Proxiima whose correctness is decided by code rather than by a
library or a database: who may do what, which keys and identifiers are handed out, and what a
reader is shown. Each module models one component and proves what it promises over every
input, every run or every interleaving.

| module | models |
|---|---|
| `JwksKeys`, `JwksCache`, `JwksAnswers`, `JwksWitnesses` | the two JWKS loaders, the key cache that any number of `key_for` calls share, what those calls return, and runs that reach the bounds |
| `MemoryUuid` | the monotone UUIDv8 mint of memory ids (sections 5.8 and 6.2 of RFC 9562) |
| `ChunkedEmbedding` | the bisection that rescues an embedding the provider refused as too long |
| `CanonicalJson` | the canonical JSON writer, inverted by a parser |
| `Access`, `Capabilities`, `Authz` | the role lattice and role map, exact tool keys, and the authorization context with its sealed owner scope |
| `RevalidatedStream` | the wrapper that ends a long-lived stream when its identity does |
| `BindingSet` | the multi-route OIDC authenticator, and when a host's own context is taken |
| `Pins`, `EdgePages` | pin carriers, the edges they project, and their keyset pages |
| `Culprit` | the sampler and judge that find the commit which turned a branch red |
| `QuiesceGate` | the pause gate between a host and a background worker |
| `Wrappers`, `Bytes`, `Utf8`, `Sorting`, `Lists` | shared vocabulary: byte order, UTF-8 boundaries, unique sorted orders, multisets of mapped lists |

How time, concurrency and the outside world appear. A concurrent protocol is a state machine
whose steps are the source's atomic accesses; a list of events is an interleaving, and
statements about all event lists are statements about all interleavings, including tasks dropped
at any await. Clocks, random bytes, timers, fetched documents, a provider's replies, a
validator's answers and the host's ports are parameters that range over everything they could
be. `Instant::now()` assigned through a lock reads the clock before it waits for the lock, so
reading and writing a stamp are two steps. Times are whole numbers of the source's unit.

Seven places where the code is not what its comments or its reader might expect; each has a
witness and the exact condition.

- A key read from a set past its age can be returned unrefreshed, even after a refresh removed
  it: the cache and its clock are read under different locks, and another call's refresh can
  fall between (`RotatedOutKeyIsReturned`, `OverAgeHitReturnsExactlyWhenOvertaken`).
- An unsplittable UTF-8 piece can reach 4101 bytes and 4098 characters, not the 4095 that the
  comment at crates/core/src/llm.rs:465-467 gives; 4095 is right for ASCII
  (`LeastCapForAscii`, `LeastCapForText`, `LargestPieceIsUnsplittable`).
- A floor whose version nibble is above 8 can stay above the id minted for it
  (`LaterVersionFloorIsNotExceeded`, `MintExceedsFloor`).
- A host's context may manage an owner it can read nothing of, since manage rights are compared
  on readable owners (`UnreadManagedOwnerIsNotCompared`, `ManageIsComparedOnReadableOwners`).
- Following page cursors skips an edge when a page ends between two edges with equal keys, as
  when one Goal is both referred to and guiding; what is skipped is a repeat of a listed edge
  unless one id is both a memory and a Goal (`EqualKeysCanBeCut`, `PagesAreComplete`,
  `EveryHopIsListed`).
- A redacted edge keeps the place its target's id gives it in the order, so its place among
  readable edges can tell two targets apart (`PlaceTellsUnreadableTargetsApart`,
  `OtherTargetUnnoticedExactly`).
- A page's cursor names the target it ends at, also where the edge withholds it
  (`CursorTellsUnreadableTargetsApart`, `ResponsesAgreeExactly`).

## Model

| member | source | states |
|---|---|---|
| `JwksKeys.UsableExactly` | crates/auth-oidc/src/keys.rs:180-249 | the shared check reads an entry as a key exactly when it has no private part, is for signing, names no unverified algorithm, and is RSA, P-256 or Ed25519 with 32-byte coordinates |
| `JwksKeys.FirstFaultIsNamed` | crates/auth-oidc/src/keys.rs:180-237 | of several faults the algorithm is named before the use and the use before a private part; a type is refused exactly outside the three |
| `JwksKeys.ReadAsRsaExactly` | crates/auth-oidc/src/keys.rs:239-249 | the tolerant reading changes only the type, to RSA for its eight spellings or when unnamed with a modulus and exponent |
| `JwksKeys.LoadTolerant` | crates/auth-oidc/src/keys.rs:403-439 | the fetched-set loop builds exactly the usable map and fails exactly when that is empty |
| `JwksKeys.LastUsableEntryWins` | crates/auth-oidc/src/keys.rs:403-439 | a name is in the map exactly when some usable entry has it, and holds the key of the last one |
| `JwksKeys.UnusableEntriesChangeNothing` | crates/auth-oidc/src/keys.rs:229-249 | an unusable or unnamed entry inserted anywhere leaves the map as it was |
| `JwksKeys.LoadStrict` | crates/auth-oidc/src/keys.rs:102-128 | the pinned set loads exactly when it is non-empty and faultless, else names its first fault |
| `JwksKeys.StrictExactly` | crates/auth-oidc/src/keys.rs:110-121 | a pinned entry stands exactly when it is a JWK, its name is not blank and the shared check reads it as a key |
| `JwksKeys.StrictNames` | crates/auth-oidc/src/keys.rs:102-128 | a name is taken exactly when an accepted entry has it |
| `JwksKeys.FaultlessEntriesAllCount` | crates/auth-oidc/src/keys.rs:102-128 | every entry of a faultless set is in the map with its own key |
| `JwksKeys.StrictAgreesWithTolerant` | crates/auth-oidc/src/keys.rs:102-128 | every document the strict loader accepts gives the tolerant loader the same map |
| `JwksCache.GateInvHolds` | crates/auth-oidc/src/keys.rs:512-585 | in every interleaving the gate's holder is exactly the one task in the guarded stretch, with what it checked still true |
| `JwksCache.AttemptsNeverOverlap` | crates/auth-oidc/src/keys.rs:512-585 | two calls never refresh at once, even when tasks are dropped at any await |
| `JwksCache.MarksAreACooldownApart` | crates/auth-oidc/src/keys.rs:475-485 | any two attempt marks of a run are at least the cooldown apart |
| `JwksCache.MarksInAWindow` | crates/auth-oidc/src/keys.rs:475-485 | a window of width W holds at most W / cooldown + 1 marks |
| `JwksCache.StartsInAWindow` | crates/auth-oidc/src/keys.rs:475-485 | counted by the start of the fetch, a window holds at most one more |
| `JwksWitnesses.StartsCanCoincide` | crates/auth-oidc/src/keys.rs:483-485 | that one more is real: a run in which two fetches start at the same instant |
| `JwksAnswers.HeldKeyWasRead` | crates/auth-oidc/src/keys.rs:514-521 | a call past its start has read the cache, and the key it carries is what it read there |
| `JwksAnswers.FirstReadIsUnique` | crates/auth-oidc/src/keys.rs:514-521 | a call has one first read |
| `JwksAnswers.ReturnedKeyWasCached` | crates/auth-oidc/src/keys.rs:514-584 | a returned key was the cache's entry for its name at an instant between the first read and the return |
| `JwksAnswers.UnknownMeansAbsent` | crates/auth-oidc/src/keys.rs:535-584 | a name is reported unknown only while the cache does not have it |
| `JwksAnswers.UnknownForAReason` | crates/auth-oidc/src/keys.rs:531-584 | a name is reported unknown only when throttled, or after the call found the set young or fetched one itself |
| `JwksAnswers.RefreshFailedMeansOwnFetch` | crates/auth-oidc/src/keys.rs:575-577 | a refresh error comes only from this call's own fetch |
| `JwksAnswers.HitReturnsFreshOrExcused` | crates/auth-oidc/src/keys.rs:519-560 | after a hit, the key read is returned only if its set was young when read, another call's refresh overtook the age check, the refresh was throttled, or the call's own fetch failed; otherwise the key is the entry of a set the call found fresh or fetched |
| `JwksAnswers.AnswerBehindTheGate` | crates/auth-oidc/src/keys.rs:525-560 | a call that hit and took the gate reads the age again at its next event; found young, it answers what the cache has at its return, the key or unknown; only if still past the maximum does it return the key first read, throttled or after its own failed fetch, or else the entry of a set it fetched |
| `JwksAnswers.HitGoesToTheGateOnlyIfDue` | crates/auth-oidc/src/keys.rs:519-526 | a call with a key in hand is at or past the gate only if its age check found the clock past the maximum |
| `JwksAnswers.OverAgeHitReturnsExactlyWhenOvertaken` | crates/auth-oidc/src/keys.rs:518-525 | a hit on a set past its age is returned from the age check exactly when another call stamped a still young refresh since the read |
| `JwksAnswers.AgeCheckedKeyIsCachedOrReplaced` | crates/auth-oidc/src/keys.rs:518-525 | a key at its age check is the cached one, or another call installed a set since it was read |
| `JwksWitnesses.RotatedOutKeyIsReturned` | crates/auth-oidc/src/keys.rs:518-525 | a run that returns the key of a set past its age after a refresh removed it, neither throttled nor fetching |
| `JwksAnswers.RenewedAtSomeEvent` | crates/auth-oidc/src/keys.rs:533-549 | a call that reads the cache last did find it fresh or fetch it, at an event of its own |
| `JwksCache.NextIsFetched` | crates/auth-oidc/src/keys.rs:403-439 | a set about to be installed is the usable set of a document this very call fetched |
| `JwksCache.CacheIsOneDocument` | crates/auth-oidc/src/keys.rs:403-439 | the cache is empty or exactly one fetched document's usable set |
| `JwksCache.FailedFetchesChangeNothing` | crates/auth-oidc/src/keys.rs:403-439 | over any stretch of failed fetches neither cache nor refresh clock changes |
| `JwksCache.CallIsBounded` | crates/auth-oidc/src/keys.rs:512-585 | a call ends within twelve events of its own |
| `JwksCache.OneAttemptPerCall` | crates/auth-oidc/src/keys.rs:512-585 | no call makes two attempts |
| `JwksCache.NoDeadlock` | crates/auth-oidc/src/keys.rs:512-585 | a live call can move or waits for a holder that can |
| `MemoryUuid.Generator.Mint` | crates/core/src/memory_uuid.rs:17-54 | one mint returns the next id or refuses, and leaves the mark of the specification, which the rows below read back from the bytes |
| `MemoryUuid.LayoutReadsBack` | crates/core/src/memory_uuid.rs:105-122 | timestamp, counter, store number, version 8, variant and random bits read back from the sixteen bytes |
| `MemoryUuid.LayoutInBytes` | crates/core/src/memory_uuid.rs:44-53 | the sixteen bytes one by one |
| `MemoryUuid.RefusedExactlyAtTheEnd` | crates/core/src/memory_uuid.rs:25-41 | a mint refuses exactly when the clock or the mark to pass leaves 48 bits, with the state unchanged |
| `MemoryUuid.MintExceedsPrevious` | crates/core/src/memory_uuid.rs:17-54 | a minted id is greater, as bytes, than any id of the previous mark |
| `MemoryUuid.MintExceedsFloor` | crates/core/src/memory_uuid.rs:25-52 | when a minted id exceeds an arbitrary floor, exactly |
| `MemoryUuid.LaterVersionFloorIsNotExceeded` | crates/core/src/memory_uuid.rs:29 | a floor of a later version that is not exceeded |
| `MemoryUuid.MarkIsMonotone` | crates/core/src/memory_uuid.rs:17-54 | over every run the mark never moves back |
| `MemoryUuid.MarkIsOfTheLastSuccess` | crates/core/src/memory_uuid.rs:17-54 | over every run the mark is that of the last success, and absent before the first |
| `MemoryUuid.NewMillisecond` | crates/core/src/memory_uuid.rs:32-44 | over every run, with the clock past every earlier success and the floor, an id reads back the clock and the low twelve bits of random bytes 6 and 7 |
| `MemoryUuid.SameMillisecond` | crates/core/src/memory_uuid.rs:32-44 | otherwise it reads back the latest mark to pass with its counter one up, or with the counter full the next millisecond and those random bits |
| `MemoryUuid.SuccessesStrictlyIncrease` | crates/core/src/memory_uuid.rs:71-87 | over every run, successes strictly increase in byte order |
| `MemoryUuid.SuccessExceedsItsFloor` | crates/core/src/memory_uuid.rs:71-87 | over every run, each success exceeds its own floor of version at most 8 |
| `MemoryUuid.TimestampBounds` | crates/core/src/memory_uuid.rs:25-52 | a timestamp is at least its clock and at most the latest clock or floor seen plus the number of mints |
| `ChunkedEmbedding.CutIsLastBoundary` | crates/core/src/llm.rs:597-606 | the cut is the last character boundary at or before the middle |
| `ChunkedEmbedding.SplitSegment` | crates/core/src/llm.rs:597-606 | the loop computes the split, whose place the next row fixes |
| `ChunkedEmbedding.SplitsInTheMiddle` | crates/core/src/llm.rs:597-606 | the cut is at the one last character boundary of the first half, and there is none exactly when that is below 2048 bytes |
| `ChunkedEmbedding.SplitKeepsText` | crates/core/src/llm.rs:597-606 | the halves of a text are texts |
| `Utf8.EncodedIsOneCharacter` | crates/core/src/llm.rs:599 | the UTF-8 bytes of every code point are one character with no boundary inside |
| `Utf8.CharacterIsEncoded` | crates/core/src/llm.rs:599 | and every character of a text is those bytes of some code point |
| `ChunkedEmbedding.PieceShape` | crates/core/src/llm.rs:553-606 | every piece is the whole text or at least 2048 bytes, of whole characters |
| `ChunkedEmbedding.EmbedPending` | crates/core/src/llm.rs:579-594 | the stack loop, from the text or from its halves, makes the calls of the recursive bisection in order and ends in such a transcript |
| `ChunkedEmbedding.EmbedInChunks` | crates/core/src/llm.rs:558-595 | for any provider the rescue makes exactly the calls of a recursive left-first bisection, at most 2 * max(1, n / 2048) - 1, one fewer with a refusal in hand; a complete end covers exactly the text, one vector a piece in order; a refusal is that of an unsplittable piece; another error yields no vectors |
| `ChunkedEmbedding.AsciiUnsplittable` | crates/core/src/llm.rs:458-468 | an ASCII piece is unsplittable exactly up to 4095 bytes |
| `ChunkedEmbedding.TextUnsplittable` | crates/core/src/llm.rs:597-606 | no unsplittable UTF-8 piece passes 4101 bytes or 4098 characters |
| `ChunkedEmbedding.LargestPieceIsUnsplittable` | crates/core/src/llm.rs:597-606 | one text reaches both maxima |
| `ChunkedEmbedding.LargestPieceIsText` | crates/core/src/llm.rs:597-606 | and it is well-formed UTF-8 of 4098 characters |
| `ChunkedEmbedding.RefusedOver` | crates/core/src/llm.rs:558-595 | an unsplittable text over the cap has one run, and it is refused |
| `ChunkedEmbedding.RefusedAgain` | crates/core/src/llm.rs:524-551 | started from its refusal, every run ends refused, and the rescue hands that refusal back without a call |
| `ChunkedEmbedding.LeastCapForAscii` | crates/core/src/llm.rs:458-468 | every ASCII text is embedded under a character cap exactly when the cap is at least 4095, started from the text or from a refusal of it |
| `ChunkedEmbedding.LeastCapForText` | crates/core/src/llm.rs:458-468 | every UTF-8 text is embedded under a character cap exactly when the cap is at least 4098, started either way |
| `CanonicalJson.Sink.Write` | crates/core/src/canonical_json.rs:21-62 | the recursive writer appends exactly the canonical bytes, whatever order keys are visited in |
| `CanonicalJson.Sink.WriteObject` | crates/core/src/canonical_json.rs:42-60 | the object branch sorts its keys and writes each member once |
| `CanonicalJson.KeyOrderIsUnique` | crates/core/src/canonical_json.rs:43-44 | a set of keys has one sorted order |
| `CanonicalJson.CanonicalBytes` | crates/core/src/canonical_json.rs:15-19 | the entry point returns the canonical bytes |
| `CanonicalJson.WordsInBytes` | crates/core/src/canonical_json.rs:23-28 | the three words in ASCII, and a number as its token |
| `CanonicalJson.StringInBytes` | crates/core/src/canonical_json.rs:29-31 | a string is its bytes between quotes: seven bytes as two-byte escapes, the other bytes below 20 hex as \u00 and two lowercase hex digits, every other byte itself |
| `CanonicalJson.ArrayInBytes` | crates/core/src/canonical_json.rs:32-41 | an array is its items in order between brackets, with commas and nothing else |
| `CanonicalJson.ObjectInBytes` | crates/core/src/canonical_json.rs:42-60 | an object is key, colon and value of each key once between braces, keys ascending byte by byte |
| `Bytes.LessIsLexicographic` | crates/core/src/canonical_json.rs:43-44 | the byte order looks at the first difference, and a proper prefix comes first |
| `CanonicalJson.CanonicalRoundTrip` | crates/core/src/canonical_json.rs:15-62 | the parser reads the canonical bytes back to the value, leaving nothing |
| `CanonicalJson.CanonicalIsInjective` | crates/core/src/canonical_json.rs:15-62 | two values of any depth print the same bytes exactly when they are equal, objects read as maps |
| `CanonicalJson.CanonicalIsPrefixFree` | crates/core/src/canonical_json.rs:15-62 | no value's bytes begin another's, unless a number could go on |
| `Access.NewRole` | crates/core/src/access.rs:130-145 | a role is refused exactly when it writes a kind it does not read, and else allows what was asked |
| `Access.CeilingsAreNested` | crates/core/src/access.rs:36-97 | a ceiling allows its own kind and the ones below it, Fact to Goal |
| `Access.DominatesIsContainment` | crates/core/src/access.rs:276-284 | one role dominates another exactly when it has every capability of it |
| `Access.DominatesIsPartialOrder` | crates/core/src/access.rs:276-284 | domination is a partial order |
| `Access.RolesFormALattice` | crates/core/src/access.rs:228-274 | meet is the greatest role below both and join the least above both |
| `Access.ForwarderRole.AsRole` | crates/core/src/access.rs:423-439 | no forwarding role manages or writes Goals |
| `Access.NamedRoles` | crates/core/src/access.rs:148-186 | what the viewer, ingest, editor and personal roles read and write, kind by kind |
| `Access.ForSubject` | crates/core/src/access.rs:310-327 | the loop over rows fails exactly when one names the subject's own id |
| `Access.LeastRoleOfAllRows` | crates/core/src/access.rs:310-327 | a group is in the map exactly when a row names it, and has the least role dominating all its rows |
| `Access.OwnRoleIsPersonal` | crates/core/src/access.rs:310-327 | the subject holds the personal role |
| `Access.OrderAndRepeatsDoNotMatter` | crates/core/src/access.rs:310-327 | rows in any order, any number of times, give the same map |
| `Access.Ordered` | crates/core/src/access.rs:396-414 | listed owners are those that pass, once each, own id first and the rest ascending |
| `Capabilities.IntersectKeys` | crates/core/src/authz.rs:219-226 | a key is kept exactly when both lists have it |
| `Capabilities.ToolScope.Intersect` | crates/core/src/authz.rs:151-160 | the intersection allows exactly what both allow |
| `Capabilities.ServedSurface.Intersect` | crates/core/src/authz.rs:209-216 | the intersection admits exactly what both admit, declared reads included |
| `Capabilities.RestrictionsAccumulate` | crates/core/src/authz.rs:1015-1021 | after any sequence of restrictions a key is admitted exactly when each of them admits it |
| `Authz.EveryReachableContext` | crates/core/src/authz.rs:883-1220 | in every context any builders reach: the accessible set is the owners readable at Fact, a default owner has a role, a sealed witness has the context's own roles and writer, a confined context has its one owner, a forwarded one names at most its claimed owner, never manages and never writes Goals |
| `Authz.KnownAtFirst` | crates/core/src/authz.rs:614-1292 | roles, writer, path, claim, expiry and seal of each kind of new context |
| `Authz.AdmittedAtFirst` | crates/core/src/authz.rs:883-1292 | a new context admits every key, a refused one none |
| `Authz.ServedOverARun` | crates/core/src/authz.rs:1015-1021 | over every run, what is served is what every restriction since the start serves |
| `Authz.SettingsStand` | crates/core/src/authz.rs:1008-1220 | a tool scope, model, epoch or expiry that was set stands through everything else until one of its kind is set again |
| `Authz.ForInsecureSingleOwner` | crates/core/src/authz.rs:645-662 | the insecure single-owner context holds the personal role of that owner alone and is confined to it |
| `Authz.NarrowingKeepsExactlyThatOwner` | crates/core/src/authz.rs:1129-1150 | narrowing keeps exactly the rights on that owner |
| `Authz.NarrowsToEveryHeldOwner` | crates/core/src/authz.rs:1129-1150 | a reachable context, sealed or not, narrows to exactly the owners it has a role for |
| `Authz.NoRoleWithoutAnAnswer` | crates/core/src/authz.rs:958-1209 | over every run, a role an owner has is the one it started with unless some operation carried a host's answer about that very owner |
| `Authz.NarrowingIsForever` | crates/core/src/authz.rs:1129-1209 | after narrowing, no sequence of builders, folds, resolutions and sealings names another owner or holds a Goal lane, and without a forwarding claim the one role never changes |
| `Authz.ReachableContextsSeal` | crates/core/src/authz.rs:664-685 | a reachable context, confined or not, seals exactly when it has roles and a writer |
| `Authz.SealsWhatTheContextHas` | crates/core/src/authz.rs:664-685 | sealing changes only the state, and seals the context's own roles, writer, expiry and confinement |
| `Authz.SealedExpiryIsForever` | crates/core/src/authz.rs:664-1196 | once a context that expires at e is sealed, no sequence of operations short of a new expiry and a new sealing lets a group or a forwarding resolve from e on |
| `Authz.AttestedWriterIsSealed` | crates/core/src/authz.rs:779-786 | a writer is attested exactly to an unsealed context that is not denied, and is the one a sealing binds |
| `Authz.SealedWriterIsForever` | crates/core/src/authz.rs:779-786 | once sealed, a context stays sealed and its writer is never rebound |
| `Authz.ForwardingResolvesExactly` | crates/core/src/authz.rs:958-1005 | when a forwarding claim resolves, exactly, with the role and writer that result and the earlier of the two expiries |
| `Authz.GroupResolvesExactly` | crates/core/src/authz.rs:1185-1209 | when a group resolves on demand, exactly, and that only its rights change |
| `Authz.HostRoleFoldsExactly` | crates/core/src/authz.rs:1166-1180 | when a host's role folds in, exactly, and that only that group's rights change |
| `Authz.DefaultOwnerExactly` | crates/core/src/authz.rs:1105-1150 | a default owner is named exactly among those with a role, and narrowing withdraws it |
| `Authz.GoalLaneIsTheBearersOwn` | crates/core/src/authz.rs:664-685 | only a run that began with a host bearer's own roles ever holds a Goal lane, and it is that subject's |
| `Authz.SealingGrantsTheGoalLaneExactly` | crates/core/src/authz.rs:664-685 | over every run, sealing gives the lane exactly to such a run that is not confined |
| `Authz.DenialIsForever` | crates/core/src/authz.rs:779-786 | nothing done to a denied context gives it a writer or seals it |
| `RevalidatedStream.Stream.ObserveTermination` | crates/core/src/authz.rs:1358-1390 | one look at the deadlines and the epoch check, with at most one check in flight |
| `RevalidatedStream.Stream.PollNext` | crates/core/src/authz.rs:1400-1434 | one poll answers and moves as the step specification says |
| `RevalidatedStream.DeliveredIsAPrefix` | crates/core/src/authz.rs:1400-1434 | every schedule delivers a prefix of the inner items, in order |
| `RevalidatedStream.StoppingIsForever` | crates/core/src/authz.rs:1401-1413 | closing and closed are never left |
| `RevalidatedStream.EndIsForever` | crates/core/src/authz.rs:1401-1413 | after an end every poll answers none |
| `RevalidatedStream.TerminationEndsAtFirstNotReady` | crates/core/src/authz.rs:1405-1434 | once termination is seen no poll is pending, and the first not-ready one ends the stream |
| `RevalidatedStream.NoPrematureEnd` | crates/core/src/authz.rs:1400-1434 | an end means termination was seen or every inner item was delivered |
| `RevalidatedStream.TransparentUntilSeen` | crates/core/src/authz.rs:1400-1434 | until then each poll answers what the inner stream would |
| `RevalidatedStream.CheckInFlight` | crates/core/src/authz.rs:1371-1387 | a check in flight was started by a tick and has not been answered since |
| `RevalidatedStream.CheckInFlightExactly` | crates/core/src/authz.rs:1371-1387 | a check is in flight exactly while a tick started one and no poll that asked had an answer since |
| `RevalidatedStream.SeenForAReason` | crates/core/src/authz.rs:1358-1390 | termination is seen exactly for an ended lifetime, an expiry, or a newer epoch from a check a tick started |
| `BindingSet.New` | crates/auth-oidc/src/binding_set.rs:387-404 | accepts exactly non-empty lists of distinct routes, else names the first repeat |
| `BindingSet.ClaimedIssuerIsTheOnlyOne` | crates/auth-oidc/src/binding_set.rs:333-357 | an issuer is claimed exactly by a payload with one plain-string `iss`, and is then the only one the token names; lists, repeats and unreadable payloads claim none |
| `BindingSet.SecondSegmentExactly` | crates/auth-oidc/src/binding_set.rs:349 | the payload is what lies between the first dot and the second or the end, and without a dot there is none |
| `BindingSet.Authenticate` | crates/auth-oidc/src/binding_set.rs:412-453 | the prefiltered loop; when validators accept only tokens naming their issuer, it answers what trying every binding would, and what the one validating binding decides, if there is one |
| `BindingSet.PrefilterChangesNothing` | crates/auth-oidc/src/binding_set.rs:333-357 | when validators accept only tokens naming their issuer, the prefilter loses no match, whatever the payload holds |
| `BindingSet.LoneMatch` | crates/auth-oidc/src/binding_set.rs:438-443 | a single match is the only validating binding |
| `BindingSet.LoneValidatorDecides` | crates/auth-oidc/src/binding_set.rs:438-453 | the only validating binding gives the answer, an acceptance included |
| `BindingSet.OtherwiseRefused` | crates/auth-oidc/src/binding_set.rs:438-443 | with none or several the token is refused |
| `BindingSet.AcceptedExactly` | crates/auth-oidc/src/binding_set.rs:81-330 | a validated token is accepted exactly when its subject is allowed and mapped, its model usable, the forwarding policy known, its claims or roles there, and a host's shape, where asked for, narrower |
| `BindingSet.AcceptedContext` | crates/auth-oidc/src/binding_set.rs:142-330 | the context of a token no host shapes, claim by claim: roles, writer, forwarding claim, expiry and tool scope |
| `BindingSet.OrderDoesNotMatter` | crates/auth-oidc/src/binding_set.rs:412-453 | permuting the bindings does not change the prefiltered answer, whatever the validators accept |
| `BindingSet.AcceptedExactlyWhenNarrower` | crates/auth-oidc/src/binding_set.rs:102-124 | a host's context is accepted exactly when identity is kept and no right is wider, manage compared where readable |
| `BindingSet.AcceptedOnlyNarrows` | crates/auth-oidc/src/binding_set.rs:97-134 | an accepted context has no wider right, admits exactly what both admit, and ends by the token |
| `BindingSet.ManageIsComparedOnReadableOwners` | crates/auth-oidc/src/binding_set.rs:107-111 | accepted manage rights are no wider exactly when nothing new is managed unread |
| `BindingSet.UnreadManagedOwnerIsNotCompared` | crates/auth-oidc/src/binding_set.rs:107-111 | an accepted context that manages more, unread |
| `BindingSet.AuthenticatedContextIsBounded` | crates/auth-oidc/src/binding_set.rs:295-330 | whatever the shape, an authenticated context is a bearer's, ends by the token, is no wider than resolved, and its subject is allowed |
| `BindingSet.AuthenticatedContextKeepsInv` | crates/auth-oidc/src/binding_set.rs:295-330 | the context of an accepted token keeps what every reachable context keeps |
| `BindingSet.AuthenticatedNarrowingIsForever` | crates/auth-oidc/src/binding_set.rs:295-330 | so narrowing an authenticated context, after any operations, confines it for good |
| `BindingSet.ForwarderTokenGrantsNothing` | crates/auth-oidc/src/binding_set.rs:165-207 | a forwarder's token alone reads, writes and manages nothing under any shape, and carries its claim on |
| `Pins.ResolvingConservesPins` | crates/core/src/edge.rs:260-286 | resolving conserves the multiset of pin ids and leaves typed exactly the visible Goals |
| `Pins.PinNode.ResolveVisibleGoalRefs` | crates/core/src/edge.rs:260-286 | the drain and refill in place is that resolution |
| `Pins.KindOfTheLastRow` | crates/core/src/edge.rs:299-300 | an id has the kind of the last row that has it |
| `Pins.WindowEdgesAreThePins` | crates/core/src/edge.rs:298-331 | the uncapped window has exactly the pins whose ends are in it |
| `Pins.WindowHoldsWhatItsRowsDraw` | crates/core/src/edge.rs:298-331 | an edge is in it exactly when a row of the window draws it, with source, target, kind and time spelled out |
| `Pins.RowInOrder` | crates/core/src/edge.rs:302-328 | a row's origins come first, then references, Goal references and guidance |
| `Pins.WindowKeepsOrder` | crates/core/src/edge.rs:302-328 | rows follow each other |
| `Pins.ProjectWindowEdges` | crates/core/src/edge.rs:298-331 | the capped window is the first max(cap, 1) of the uncapped one |
| `EdgePages.UnreadableTargetsLookAlike` | crates/core/src/edge.rs:336-354 | edges to unreadable targets are equal and redacted |
| `EdgePages.HopShows` | crates/core/src/engine/pin_read.rs:181-204 | what a hop shows of source, time, kind and of a live, forgotten, unreadable or Goal target |
| `EdgePages.HopsAreThePins` | crates/core/src/engine/pin_read.rs:106-123 | the hops of the rows are their pins, no more and no fewer |
| `EdgePages.OneTargetRetyped` | crates/core/src/edge.rs:252-286 | storing an unreadable Goal as a reference gives a row the reader cannot tell apart |
| `EdgePages.SameHops` | crates/core/src/engine/pin_read.rs:106-123 | such rows expand to the same hops |
| `EdgePages.RetypingIsInvisible` | crates/core/src/engine/pin_read.rs:181-204 | such rows list the same multiset of edges |
| `EdgePages.SortHops` | crates/core/src/engine/pin_read.rs:158 | sorting gives a newest-first permutation |
| `EdgePages.ListedNewestFirst` | crates/core/src/engine/pin_read.rs:125-158 | newest first spelled out: source time and id, target id, references before origins |
| `EdgePages.SortIsUnique` | crates/core/src/engine/pin_read.rs:125-158 | any two sorts agree on keys, and on hops where keys identify them |
| `EdgePages.PageHops` | crates/core/src/engine/pin_read.rs:152-179 | a response is a page of a sort of the hops |
| `EdgePages.PageShows` | crates/core/src/engine/pin_read.rs:152-179 | a page shows what is left up to the limit and carries a cursor, naming the last hop shown, exactly when more is left |
| `EdgePages.RetypingKeepsPages` | crates/core/src/engine/pin_read.rs:152-179 | such rows give pages of one length that resume at one key, the same edges where ties look alike, and the same response, cursor included, where keys identify hops |
| `EdgePages.LooksLikeExactly` | crates/core/src/engine/pin_read.rs:181-204 | two hops show the same edge exactly when they are the same pin of one target or of targets withheld in the same way, redacted or forgotten |
| `EdgePages.ListingsAgreeExactly` | crates/core/src/engine/pin_read.rs:164-167 | two lists show the same edges exactly when they look alike place by place |
| `EdgePages.ListingIsDetermined` | crates/core/src/engine/pin_read.rs:158 | the unstable sort gives one listing exactly when hops with equal keys look alike |
| `EdgePages.SortIsDetermined` | crates/core/src/engine/pin_read.rs:158 | and one list exactly when keys identify hops |
| `EdgePages.OneHopChangesUnnoticedExactly` | crates/core/src/engine/pin_read.rs:125-167 | replacing one hop by another goes unnoticed, however both lists are sorted, exactly when the two look alike, every other hop with a key between theirs looks like them, and ties look alike |
| `EdgePages.OtherTargetUnnoticedExactly` | crates/core/src/engine/pin_read.rs:106-167 | the same for a row that refers to another target: its place among the other references must not tell |
| `EdgePages.PlaceTellsUnreadableTargetsApart` | crates/core/src/engine/pin_read.rs:125-158 | two rows that differ in a redacted target, with different edges and nothing after either page |
| `EdgePages.ResponsesAgreeExactly` | crates/core/src/engine/pin_read.rs:152-179 | whole responses to any cursor are equal exactly when the pages look alike place by place, end or go on together, and end at the same target |
| `EdgePages.AlikeUpToTheCursor` | crates/core/src/engine/pin_read.rs:162-178 | lists with one listing answer with equal edges, and with another cursor exactly where a page ends at different targets |
| `EdgePages.CursorTellsUnreadableTargetsApart` | crates/core/src/engine/pin_read.rs:169-177 | two such rows with equal edges and different cursors |
| `EdgePages.CursorResumes` | crates/core/src/engine/pin_read.rs:134-161 | a cursor resumes at the next smaller key, in whichever sort of the hops |
| `EdgePages.ResponsesFollow` | crates/core/src/engine/pin_read.rs:152-179 | successive responses are successive stretches of one walk, though each request sorts anew |
| `EdgePages.PagesAreComplete` | crates/core/src/engine/pin_read.rs:152-179 | following the cursors over fresh sorts lists every hop as often as it is there exactly when no page ends between equal keys |
| `EdgePages.EveryKeyIsListed` | crates/core/src/engine/pin_read.rs:152-179 | every key is listed regardless, over fresh sorts |
| `EdgePages.EveryHopIsListed` | crates/core/src/engine/pin_read.rs:152-179 | so where equal keys mean equal hops, what is skipped is only a repeat |
| `EdgePages.EqualKeysCanBeCut` | crates/core/src/engine/pin_read.rs:159-161 | a resolved row with a repeated hop, whose second page of one is empty |
| `Culprit.RoundingIsNear` | scripts/verify-culprit.py:85-87 | rounding is off by at most a half, a half only to an even number |
| `Culprit.PickIsNearest` | scripts/verify-culprit.py:85-87 | each pick counts the commits nearest to its share, a tie going to the even count |
| `Culprit.PicksAreEvenlySpaced` | scripts/verify-culprit.py:85-87 | picks strictly increase with gaps within one of n / limit |
| `Culprit.LastPickIsTheTip` | scripts/verify-culprit.py:85-87 | the last pick is the tip |
| `Culprit.LongHistoryIsSampled` | scripts/verify-culprit.py:78-88 | a history longer than the limit gives exactly `limit` increasing picks ending at the tip |
| `Culprit.ShortHistoryIsProbedWhole` | scripts/verify-culprit.py:78-85 | a history within the limit is probed whole, and what is an error |
| `Culprit.MoreJobsNeverClear` | scripts/verify-culprit.py:104-109 | one more job never undoes red, and green needs every job green |
| `Culprit.OutcomeExactly` | scripts/verify-culprit.py:104-109 | red, green and unknown by the conclusions' own words |
| `Culprit.Judge` | scripts/verify-culprit.py:112-132 | healed exactly when the tip is not red; else the verdict is on the first red probe and the newest green before it |
| `Culprit.LastGreenIsNewest` | scripts/verify-culprit.py:117-124 | the green probe it starts from is the newest, or the base |
| `Culprit.RevertIsJust` | scripts/verify-culprit.py:112-132 | a revert names a bad commit with a good parent |
| `Culprit.RangeHoldsTheBreak` | scripts/verify-culprit.py:112-132 | a range holds a good commit whose child is bad |
| `Culprit.EveryCommitProbedReverts` | scripts/verify-culprit.py:112-132 | with every commit probed and known the verdict is a revert |
| `Culprit.StayingBadPinsTheCulprit` | scripts/verify-culprit.py:112-132 | where bad stays bad, a revert names the first bad commit of all |
| `Culprit.SampleProbesTheHistory` | scripts/verify-culprit.py:78-88 | the sample is what the judge's theorems ask of its probes |
| `Culprit.RangeIsNarrow` | scripts/verify-culprit.py:78-132 | with no unknown probe, at most n / limit + 1 commits are left to search |
| `QuiesceGate.EveryInterleaving` | crates/core/src/quiesce.rs:97-244 | a parked gate has a parked worker, only a dropped worker stops it, and no wake-up is lost |
| `QuiesceGate.WorkerComesAndGoes` | crates/core/src/quiesce.rs:204-244 | entering, settling, abandoning and cancelling move the worker and leave the gate and the calls as they are |
| `QuiesceGate.NoClaimAfterPause` | crates/core/src/quiesce.rs:131-159 | once a call is told of the pause the worker holds no claim and starts none until a resume |
| `QuiesceGate.ToldOfItsOwnPause` | crates/core/src/quiesce.rs:131-159 | the gate stayed closed in one pause from the call until it was told |
| `QuiesceGate.AnswersAreTrue` | crates/core/src/quiesce.rs:145-158 | a call is told of a pause only at a gate parked in its own pause, of a stop only once the worker is gone, and of a resume only after a resume of its pause |
| `QuiesceGate.WorkerParks` | crates/core/src/quiesce.rs:204-229 | in a closing or closed gate a worker in a checkpoint is parked by its third own step and stays parked, whatever the calls do in between |
| `QuiesceGate.WorkerProceeds` | crates/core/src/quiesce.rs:204-229 | at a reopened gate it proceeds to a claim by its third own step, whatever else moves |
| `QuiesceGate.CallIsTold` | crates/core/src/quiesce.rs:145-158 | at a parked gate a call of this pause is told by its second own step, whatever the others do |
| `QuiesceGate.PauseCompletes` | crates/core/src/quiesce.rs:131-229 | a call at any gate that is not stopped closes it, and is told of its pause once a worker in a checkpoint has had three own steps and then the call two |
| `QuiesceGate.ResumeLetsTheWorkerClaim` | crates/core/src/quiesce.rs:167-229 | a resume opens any gate that is not stopped, and a worker in a checkpoint then claims by its third own step |

## Left out

- HTTP, redirects, timeouts, base64 and signature checks: foreign calls. A fetch brings any document or fails; a validator is any function of the binding, and at most one thing is asked of it: that a token it accepts names its issuer.
- Wakers and real timers behind the stream: each poll is given what its timers would answer.
- JSON numbers are opaque tokens, compared as printed: a number printed two ways counts as two values, although `serde_json` compares -0.0 and 0.0 as equal.
- Number and string syntax beyond the printer: the parser reads what the printer writes, not all of RFC 8259. Keys sort by UTF-8 bytes, which is not RFC 8785.
- RetypingKeepsPages: where one id is referred to both as a memory and as a visible Goal, two hops share a key and the unstable sort may order them either way, so one row alone has more than one listing (`ListingIsDetermined`); then only length and resume key of a page are fixed, and `RetypingIsInvisible` still holds of the whole list.
- Sample: the step n / limit is an exact fraction; the script's float step is exact for the power-of-two limit it uses.
- Reading job names into probes (`probe_outcomes`): string handling only.
- Attributing claims, publication extensions, invoking tools and delegated phases on the context: carried along, never consulted by the operations modelled.
- The trimming and length bound of a trusted model id: an answer of the host here.
- Inbound source paging of edges and the neighbor sample: they choose which rows to load from storage.
- Storage, the engine's verbs, Postgres, the command line and the other scripts: not modelled.
