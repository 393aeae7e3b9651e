# Verified models of the web framework, the cache and the RPC client

Six stateful parts of the repository are modelled here and their main promises
proved for all inputs and all runs:

- the trie router of `gee/context/mygee` (registration, search, parameters, handler table),
  and the middleware chain behind `Context.Next`;
- the LRU cache of `geeCache/lru` on a real doubly linked list, and the read-through
  group on top of it;
- the consistent-hash ring, the peer picker and a cluster of nodes that forward keys to
  their owners;
- singleflight, as a machine of interleaved threads;
- the RPC client's call protocol, as a machine of callers, one receiver and `Close`
  against an arbitrary server;
- the server registry and the discovery client that caches its answers.

Code that changes state in place is a class whose methods are proved against functions
on values (`RouteNode` against `RouteTrie`, `Lru` against `LruModel`, `HashRing` against
`ConsistentHash`, `RpcClient` against `RpcShared`, `Middleware.Context` against
`Middleware.Loop`, `Registry.GeeRegistry` against its heartbeat log); the long-run
results are about those functions. Concurrent code is a state machine with one step per
critical section or blocking operation; `Run(events, k)` is the state after the first k
events of an arbitrary interleaving.

Findings where the code does not do what it seems to promise, each with the exact
condition under which it does:

- Literals rank before parameters and parameters before stars, and of equal patterns the
  last counts; that decides every request (`RouteRank.TopExists`, `RouteRank.TopIsUnique`).
  A tree answers every request with its top match exactly when every registration is
  settled: it sits under parts of its own kinds, or only its final star was stored at a
  parameter node under which parameter nodes with patterns lead down to a star, and no
  pattern of that node's own kinds was registered, unless the node carries one
  (`RouteExact.InRankIffSettled`). After `/:a/x`, a registration of `/b/y` is not settled
  and answers `/c/y`.
- Without a rank between parameters and stars, every request has a right answer exactly
  when no two patterns have a parameter against a star at the first place where their kinds
  differ (`RouteDecided.DecidedIff`). Tame registrations, for which `matchChild` finds
  nothing or an equal part at each level, up to the name of a wildcard of the same kind,
  are always of that sort. On such lists the tree is right exactly when every registration
  was tame; on others no tree could be (`RouteDecided.DecidedCorrectIffTame`).
- Extracted parameters determine the request exactly when each wildcard has a name of its
  own (`RouteParams.RoundTripsIffDistinctNames`).
- `Add` evicts at most one entry, so the byte count can exceed the budget; it never does
  exactly when `s * (maxBytes / m) <= maxBytes` for entry sizes from m to s
  (`LruBudget.BudgetHoldsIff`).
- Rings built from the same nodes in different orders agree exactly when the hash
  separates the nodes' labels (`ConsistentHash.OrderIrrelevantIffSeparated`); exactly then
  every `Get` in every cluster of these nodes ends, and otherwise some `Get` never does
  (`Cluster.EveryGetEndsIff`, `Cluster.UnseparatedLoops`).
- Two nodes share a label exactly when the name of one is that of the other with one more
  digit in front: "11.2.3.4" and "1.2.3.4" do (`ConsistentHash.LabelsClashIff`,
  `ConsistentHash.ClashIsOneDigit`).
- `Do` locks its mutex twice on line 28 and stops for ever (`Singleflight.StuckForEver`).
  The intended protocol is proved with that line dropped, and the cache and cluster
  results are about loads that return, that is, with that line dropped.
- The error of `ReadHeader` is shadowed on line 226 of `geeRpc/client.go`: a call that
  `terminateCalls` completes carries an error exactly when no header failed to be read
  (`RpcProtocol.HeaderFailureLooksLikeSuccess`).
- A call still pending when the client is closed gets no reply any more: it is left to
  `terminateCalls` (`RpcProtocol.CloseLeavesItToTermination`). A reply whose call was taken
  out of the table before `Close` is still delivered.
- Each `Recovery` catches one panic, after which the chain goes on: a panic gets out of a
  chain exactly when some panicking handler starts while no `Recovery` call is open
  (`Middleware.EachRecoveryCatchesOne`). With one `Recovery`, as in `Default`, that is when
  a handler before it panics, or one behind it starts with a panic and a later one panics
  too (`Middleware.SecondPanicEscapes`).
- `ServeHTTP` turns a getter's error into an empty success: a key that the getter does not
  serve is an error exactly when it is asked for at its owner or the owner's answer does
  not get through (`Cluster.UnservedKeyIsErrorIff`).
- Method and pattern are joined by a dash into a handler key, which two registrations share
  exactly when one method is the other's with a dash and the beginning of the other's
  pattern (`Router.DashedVerbsCollide`); `GET` and `POST`, the only methods registered, never
  do.
- The age of an answer of the discovery client is bounded exactly when the registry's
  timeout is not zero (`Discovery.AlwaysFreshIff`).

## Model

| member | source | states |
|---|---|---|
| RoutePattern.SegmentsWellFormed | gee/context/mygee/router.go:21-37 | segments of a path are non-empty and slash-free, and only the last can begin with a star |
| RoutePattern.SegmentsOfJoin | gee/context/mygee/router.go:21-37 | every list of segments is what its slash-joined path parses to |
| RoutePattern.SegmentsOfAbsolute | gee/context/mygee/router.go:21-37 | the same with a leading slash |
| RoutePattern.SegmentsOfPiece | gee/context/mygee/router.go:21-37 | a path without slashes is one segment, or none if it is empty |
| RoutePattern.SegmentsOfPieces | gee/context/mygee/router.go:21-37 | in front of a slash an empty piece is skipped, a piece with a star cuts off the rest, any other piece is a segment before the rest's |
| RoutePattern.MatchesIndexed | gee/context/mygee/tire.go:52-70 | matching described segment by segment: a literal or wildcard at each place, and only a final star takes more than one segment |
| RoutePattern.SameShapeMatches | gee/context/mygee/tire.go:12-20 | patterns that differ only in wildcard names match the same requests |
| RoutePattern.MoreSpecificIsStrict | gee/context/mygee/tire.go:52-70 | being more specific is asymmetric and excludes equal shape |
| RouteTrie.FirstMatch | gee/context/mygee/tire.go:12-20 | the chosen child is the first that is equal or wild; none if no child is |
| RouteTrie.SearchFindsFirst | gee/context/mygee/tire.go:52-70 | search finds the first path in depth-first order that the request can walk and that has a pattern, and nothing exactly if there is none |
| RouteTrie.SearchFromFindsFirst | gee/context/mygee/tire.go:60-69 | the same for trying children from an index on |
| RouteTrie.InsertPatterns | gee/context/mygee/tire.go:33-50 | after insertion the place of the parts holds the pattern and every other path what it held before |
| RouteTrie.InsertKeepsNodes | gee/context/mygee/tire.go:33-50 | insertion leaves every node where it was, under the same parts |
| RouteTrie.InsertKeepsPlaces | gee/context/mygee/tire.go:33-50 | where an earlier registration went does not change |
| RouteTrie.InsertKeepsWalks | gee/context/mygee/tire.go:33-70 | which requests can walk an old path does not change |
| RouteTrie.InsertOnlyRedirectsToPattern | gee/context/mygee/tire.go:33-70 | registering any non-empty pattern, tame or not, changes answers only towards that pattern and loses none |
| RouteRuns.BuildShaped | gee/context/mygee/tire.go:33-50 | in every registered tree siblings have distinct parts, at most one wildcard, which is last, and every star node has a pattern |
| RouteRuns.AtMostTwoBranches | gee/context/mygee/tire.go:22-31 | so at most two children can accept a segment |
| RouteRuns.RegistrationHasPlace | gee/context/mygee/tire.go:33-50 | every registration still has a place in the final tree |
| RouteRuns.BuildHoldsLast | gee/context/mygee/tire.go:33-37 | each node carries the last registration that went there, and only such |
| RouteRuns.AnswerFitsRequest | gee/context/mygee/router.go:63-77 | an answer is a registered pattern, as deep as it has segments and no longer than the request, so parameter extraction stays in range |
| RouteRuns.TameIffSitsRight | gee/context/mygee/tire.go:33-50 | an insertion is tame exactly if it ends under parts of its own shape |
| RouteRuns.TameRunIffAllSitRight | gee/context/mygee/tire.go:33-50 | all registrations were tame exactly if all sit right in the final tree |
| RouteTheorem.TameIsCorrect | gee/context/mygee/tire.go:12-70 | after tame registrations every request gets nothing exactly if nothing matches, else the match that has a literal where any other has a wildcard, the last of its shape |
| RouteRank.MatchesCompare | gee/context/mygee/tire.go:52-70 | two patterns that match one request are of one shape or one outranks the other |
| RouteRank.TopExists | gee/context/mygee/tire.go:52-70 | for every list of patterns and every request nothing matches or there is a top match |
| RouteRank.TopIsUnique | gee/context/mygee/tire.go:52-70 | and only one |
| RouteSettled.MatchHasAnswer | gee/context/mygee/tire.go:52-70 | a settled registration that matches a request has an answer in the tree at its place, or below the parameter node that stores its star |
| RouteSettled.SettledIsInRank | gee/context/mygee/tire.go:12-70 | if all registrations are settled every request gets its top match |
| RouteExact.OwnerFits | gee/context/mygee/tire.go:33-50 | if answers are right, a place that answers its registration's own request has its kinds, but for a star at a parameter node |
| RouteExact.ParamCatchesLonger | gee/context/mygee/tire.go:52-70 | if answers are right, a parameter node that stores a star catches all longer requests |
| RouteExact.InRankIffSettled | gee/context/mygee/tire.go:12-70 | every request path is answered with its top match exactly if every registration is settled |
| RouteDecided.DecidedIff | gee/context/mygee/tire.go:52-70 | without a rank between parameters and stars, every request has a right answer exactly if no two registrations clash |
| RouteDecided.TameIsDecided | gee/context/mygee/tire.go:12-50 | tame registrations do not clash |
| RouteDecided.CorrectIffDecidedInRank | gee/context/mygee/tire.go:12-70 | a tree is always right in that sense exactly if nothing clashes and it always gives the top match |
| RouteDecided.CorrectIffTame | gee/context/mygee/tire.go:12-70 | every request path has a right answer in that sense and gets it exactly if every registration was tame |
| RouteDecided.DecidedCorrectIffTame | gee/context/mygee/tire.go:12-70 | on lists without a clash the tree is right, or gives the top match, exactly if every registration was tame; with a clash the run is not tame and some request has no right answer |
| RouteDecided.SettledButNotTame | gee/context/mygee/tire.go:12-50 | after '/:a/*z', '/*b' is stored at ':a': not tame, but every request gets its top match |
| RouteTheorem.EarlierWalkIsLiteral | gee/context/mygee/tire.go:60-69 | two walks of a request part where the earlier takes the literal and the later the wildcard |
| RouteExact.WrongPlaceWrongAnswer | gee/context/mygee/tire.go:33-50 | one registration that is not settled spoils some answer |
| RouteOrder.OrderDoesNotMatter | gee/context/mygee/tire.go:12-70 | two tame orders of patterns with distinct shapes answer every request alike |
| RouteOrder.BestIsUnique | gee/context/mygee/tire.go:52-70 | at most one pattern is the right answer |
| RouteOrder.CleanRunLabels | gee/context/mygee/tire.go:12-50 | registrations that only meet equal parts are tame and sit under exactly their own parts |
| RouteOrder.CleanShapesAreEqual | gee/context/mygee/tire.go:12-50 | and then equal shape means equal part lists |
| RouteOrder.CleanOrderDoesNotMatter | gee/context/mygee/tire.go:12-70 | for distinct part lists every clean order answers every request alike |
| RouteOrder.LiteralIsAbsorbed | gee/context/mygee/tire.go:12-20 | after a parameter route, a later literal first segment is stored under the parameter |
| RouteOrder.AbsorbedLiteralAnswersAll | gee/context/mygee/tire.go:52-70 | and then answers requests that it does not match |
| RouteOrder.AbsorbedLiteralExample | gee/context/mygee/tire.go:12-70 | concretely: '/c/y' is answered by '/b/y' |
| RouteParams.ParamIsLastValue | gee/context/mygee/router.go:68-78 | a name is bound to the value of its last wildcard |
| RouteParams.ParamKeysAreNames | gee/context/mygee/router.go:68-78 | the names bound are exactly those of the named wildcards |
| RouteParams.DistinctNamesRoundTrip | gee/context/mygee/router.go:56-82 | with distinct names, substituting the parameters into the pattern and parsing gives the request back, joined star tail included |
| RouteParams.RoundTripsIffDistinctNames | gee/context/mygee/router.go:56-82 | that holds for all matched requests exactly if every wildcard has a name of its own |
| RouteNode.SearchListedIsSearchFrom | gee/context/mygee/tire.go:22-31 | collecting matching children first and trying them in order is testing each in turn |
| RouteNode.Node.MatchChild | gee/context/mygee/tire.go:12-20 | returns the first accepting child object or nil |
| RouteNode.Node.MatchChildren | gee/context/mygee/tire.go:22-31 | returns exactly the accepting child objects in order |
| RouteNode.Node.AppendChild | gee/context/mygee/tire.go:42-48 | adds one fresh node at the end and touches no other |
| RouteNode.Node.Insert | gee/context/mygee/tire.go:33-50 | in-place insertion refines insertion on tree values and keeps nodes disjoint |
| RouteNode.Node.InsertBelow | gee/context/mygee/tire.go:49-49 | the recursive insertion changes one child's subtree only |
| RouteNode.Node.Search | gee/context/mygee/tire.go:52-70 | returns the very node object at the path that search on the tree value finds |
| Router.ParsePatterns | gee/context/mygee/router.go:21-37 | the loop with skip and stop yields the segments |
| Router.ExtractParams | gee/context/mygee/router.go:68-78 | the loop yields the bindings, later names overriding earlier ones |
| Router.KeysOfDashFreeVerbs | gee/context/mygee/router.go:51-52 | for dash-free methods the handler key determines method and pattern |
| Router.DashedVerbsCollide | gee/context/mygee/router.go:51-52 | two registrations share a handler key exactly if they are the same, or one method is the other's with a dash and the beginning of the other's pattern |
| Router.RegisteredPatterns | gee/context/mygee/router.go:40-53 | a method's pattern list holds exactly what was registered for it |
| Router.HandlerIsLatest | gee/context/mygee/router.go:51-52 | the table holds the handler registered last for each method and pattern |
| Router.RequestIsRecovered | gee/context/mygee/router.go:56-82 | after tame registrations, an answer's parameters determine the request path's segments |
| Router.Router.AddRoute | gee/context/mygee/router.go:40-53 | in-place registration keeps trees and handler table those of the registration log, extended by one |
| Router.Router.GetRoute | gee/context/mygee/router.go:56-82 | returns the node and the bindings of the answer of the registered patterns, or nil |
| Router.Router.HandlerFor | gee/context/mygee/router.go:84-92 | for any request method, dispatch finds the handler registered last for the answer's pattern, or none |
| Middleware.LoopStartsAll | gee/context/mygee/context.go:39-44 | a loop that no panic cuts short passes the last handler |
| Middleware.NextRunsRest | gee/context/mygee/context.go:39-44 | when a handler that calls Next ends without a panic all later handlers have run |
| Middleware.PanicsMeet | gee/context/mygee/context.go:39-44 | without recovery a panic surfaces exactly if some handler ahead panics, however the handlers call Next |
| Middleware.RunPanics | gee/context/mygee/context.go:39-44 | the same for the rest of a handler's body |
| Middleware.OneMoreGuard | gee/context/mygee/recovery.go:29-40 | one more open Recovery call catches the panic that would have got out and leaves what comes after it on its own |
| Middleware.LoopStops | gee/context/mygee/context.go:39-44 | where a panic leaves the cursor: at the first handler that starts with a panic while no Recovery call is open, or past the end |
| Middleware.EachRecoveryCatchesOne | gee/context/mygee/recovery.go:29-40 | wherever and however often Recovery is installed and Next called, a panic gets out exactly if some panicking handler starts with no Recovery call open |
| Middleware.SecondPanicEscapes | gee/context/mygee/gee.go:45-49 | with one Recovery, at any place, a panic gets out exactly if a handler before it panics, or one behind it starts with a panic and a later one panics too |
| Middleware.Context.constructor | gee/context/mygee/context.go:29-37 | the cursor starts before the first handler |
| Middleware.Context.Next | gee/context/mygee/context.go:39-44 | at any nesting depth started handlers are a prefix, in order, once each; without a panic all are started |
| Middleware.Context.Handle | gee/context/mygee/context.go:42-42 | the same across any handler body, recovered panics included; after one that calls Next, without a panic, all have been started |
| LruModel.TotalPut | geeCache/lru/lru.go:57-66 | what Add does to the byte count, for a new and for a replaced key |
| LruModel.EvictsIffOverBudget | geeCache/lru/lru.go:55-71 | Add evicts exactly one entry, the last, if the bytes after the addition exceed the budget, and none otherwise |
| LruModel.GetKeepsLookups | geeCache/lru/lru.go:31-38 | a Get changes no lookup |
| LruModel.RunDistinct | geeCache/lru/lru.go:31-71 | keys stay distinct in every run |
| LruModel.GetAfterAdd | geeCache/lru/lru.go:31-71 | a Get right after Add finds the value unless the entry is alone and larger than the budget |
| LruModel.AddKeepsOthers | geeCache/lru/lru.go:55-71 | every other key keeps its value except the one reported evicted |
| LruModel.AddAddsNoOthers | geeCache/lru/lru.go:55-71 | no key appears but the one added |
| LruModel.AddReplacesKey | geeCache/lru/lru.go:57-61 | no old entry of the added key survives |
| LruModel.HitMembers | geeCache/lru/lru.go:31-38 | a Get adds nothing and its answer is an entry's value |
| LruBudget.BytesStayBounded | geeCache/lru/lru.go:40-71 | with sizes from m to s there are at most maxBytes / m entries and s * (maxBytes / m) bytes |
| LruBudget.EqualSizesStayWithinBudget | geeCache/lru/lru.go:68-70 | with one size the budget is kept |
| LruBudget.BoundIsAttained | geeCache/lru/lru.go:68-70 | maxBytes / m + 1 short keys are enough for a run that reaches that bound |
| LruBudget.BudgetHoldsGivenKeys | geeCache/lru/lru.go:40-71 | given that many short keys, no run exceeds the budget exactly if s * (maxBytes / m) does not |
| LruBudget.BudgetHoldsIff | geeCache/lru/lru.go:40-71 | the same without given keys, for budgets with room for fewer than 256 to the power m entries of size m; the runs that exceed the budget use byte strings as keys |
| LruBudget.SpellingsSuffice | geeCache/lru/lru.go:5-11 | which from m = 8 on is every 64-bit budget |
| LruRecency.NewestAfterTouch | geeCache/lru/lru.go:31-71 | the n most recent keys after a touch depend only on the n most recent before |
| LruRecency.TouchedKeyLeads | geeCache/lru/lru.go:31-71 | for entries of any sizes, a hit and an Add bring the key to the front and leave the others in order, less the evicted last |
| LruRecency.ContentsAreMostRecent | geeCache/lru/lru.go:31-71 | with one size s the contents are the maxBytes / s most recently touched keys, in order |
| LruRecency.LoadsAreMostRecent | geeCache/geecache.go:65-77 | the same for runs of loads through the group |
| LruRecency.LargerBudgetHoldsMore | geeCache/geecache.go:115-129 | for the same loads a larger budget holds whatever a smaller one holds |
| LinkedList.List.InsertFront | geeCache/lru/lru.go:63-63 | the ring with its sentinel gains one element in front |
| LinkedList.List.Remove | geeCache/lru/lru.go:44-44 | the ring loses exactly that element, whose links are cleared |
| LinkedList.List.MoveToFront | geeCache/lru/lru.go:33-33 | one element comes to the front, the others keep their order |
| LinkedList.List.Back | geeCache/lru/lru.go:41-41 | the last element, or nil |
| Lru.Cache.constructor | geeCache/lru/lru.go:22-29 | an empty cache with this budget |
| Lru.Cache.Get | geeCache/lru/lru.go:31-38 | map and linked list stay in agreement and refine Get on the recency list |
| Lru.Cache.RemoveOldest | geeCache/lru/lru.go:40-53 | removes and reports exactly the last entry, if any |
| Lru.Cache.Add | geeCache/lru/lru.go:55-71 | map, list, byte count and eviction report refine Add on the recency list |
| Lru.Cache.Len | geeCache/lru/lru.go:73-75 | the number of entries |
| GeeCache.CloneBytes | geeCache/byteview.go:21-26 | a fresh array with the same bytes |
| GeeCache.ByteSlice | geeCache/byteview.go:17-19 | what callers get to write to is never the cached array |
| GeeCache.Cache.Add | geeCache/cache.go:14-23 | creating the LRU on first use is not observable |
| GeeCache.Cache.Get | geeCache/cache.go:25-38 | finds what the LRU holds, nothing before the first Add |
| GeeCache.Group.Get | geeCache/geecache.go:65-78 | hit, peer answer or own load, with the bytes the key was last loaded with and the cache contents that follow |
| GeeCache.Group.Load | geeCache/geecache.go:80-100 | a peer's answer is returned and not cached; otherwise the getter's bytes |
| GroupModel.LoadedIsHeld | geeCache/geecache.go:80-129 | a value loaded here, also after a failed peer, is held afterwards unless alone and larger than the budget; a peer's answer leaves the cache alone |
| GeeCache.Group.GetLocally | geeCache/geecache.go:115-125 | the getter's bytes are cached and returned in two fresh arrays |
| GeeCache.Group.PopulateCache | geeCache/geecache.go:127-129 | the group's arrays stay apart from everyone else's |
| GeeCache.LaterWriteDoesNotShow | geeCache/byteview.go:17-26 | writing to the getter's slice or to a copy does not change a cached answer |
| ConsistentHash.LabelInjective | geeCache/consistenthash/consistenthash.go:35-35 | labels are pairwise distinct unless one node's name is another's with digits in front that still number a replica |
| ConsistentHash.LabelsClashIff | geeCache/consistenthash/consistenthash.go:34-36 | two nodes share a label of n replicas exactly if one name is the other's with such digits in front |
| ConsistentHash.ClashIsOneDigit | geeCache/consistenthash/consistenthash.go:34-36 | with 20 to 100 replicas that is exactly one digit |
| ConsistentHash.AddingMovesOnlyToAdded | geeCache/consistenthash/consistenthash.go:32-54 | for any hash, adding nodes leaves an owner alone or makes it one of them |
| ConsistentHash.PointBelongsToLast | geeCache/consistenthash/consistenthash.go:33-38 | a point belongs to the last listed node that has it |
| ConsistentHash.SameNodesSameRing | geeCache/consistenthash/consistenthash.go:32-41 | if the hash separates the nodes every order gives the same ring |
| ConsistentHash.OrderIrrelevantIffSeparated | geeCache/consistenthash/consistenthash.go:32-54 | all orders agree on all owners exactly if the hash separates the nodes' labels |
| ConsistentHash.DistinctLabelsSeparate | geeCache/consistenthash/consistenthash.go:32-41 | a hash that separates labels separates the nodes exactly if no two names clash in that way |
| HashRing.SearchFindsOwnerPoint | geeCache/consistenthash/consistenthash.go:49-53 | the index found, modulo the length, is the first point at or after the hash, wrapping to the smallest |
| HashRing.Map.constructor | geeCache/consistenthash/consistenthash.go:18-30 | an empty ring |
| HashRing.Map.Add | geeCache/consistenthash/consistenthash.go:32-41 | the key list stays sorted, has exactly the table's points, and the table is that of the added nodes |
| HashRing.Map.Search | geeCache/consistenthash/consistenthash.go:49-51 | binary search splits the sorted points at the hash |
| HashRing.Map.Get | geeCache/consistenthash/consistenthash.go:43-54 | returns the owner of the key, "" on an empty ring |
| HttpPool.HTTPPool.Set | geeCache/http.go:36-48 | installs a fresh ring of 50 replicas and a client for every owner |
| HttpPool.HTTPPool.PickPeer | geeCache/http.go:50-65 | picks the owner's client unless the owner is this node or nobody; never a missing client |
| Cluster.AnswersAreTheGetters | geeCache/http.go:92-95 | whatever rings and network do, a served key is answered with the getter's bytes; an unserved one is an empty success exactly if a peer is asked and its answer gets through, else an error |
| Cluster.UnservedKeyIsErrorIff | geeCache/http.go:92-95 | in a cluster of the same nodes an unserved key is an error exactly if it is asked for at its owner or the owner's answer does not get through |
| Cluster.ForwardedAtMostOnce | geeCache/geecache.go:80-113 | if nodes agree on the owner a Get sends one request if the key is not cached and the owner is another node, and none otherwise, lost ones included |
| Cluster.GetAtForwards | geeCache/geecache.go:80-113 | the cases of a forwarded Get: hit, lost request, and the owner's own answer, relayed or replaced after a lost reply |
| Cluster.OnlyOwnersCache | geeCache/geecache.go:80-129 | and without failures only owners cache |
| Cluster.OwnerHoldsKey | geeCache/geecache.go:80-129 | after a Get of a served key that reaches its owner the owner holds it, unless its cache was empty and the entry exceeds the budget |
| Cluster.UnseparatedLoops | geeCache/geecache.go:80-113 | among nodes that share a replica's hash, given the same addresses in different orders, a Get of some key never ends, between empty caches and without failures |
| Cluster.EveryGetEndsIff | geeCache/geecache.go:80-113 | every Get in every cluster of these nodes ends, whatever is cached and lost, exactly if the hash separates them |
| Cluster.EveryGetEndsIffNamesApart | geeCache/http.go:36-48 | for a hash that separates labels, exactly if no address is another's with one digit in front |
| Cluster.FormedAgree | geeCache/http.go:36-48 | nodes given the same addresses in any order agree on all owners |
| Cluster.FormedOwner | geeCache/http.go:50-65 | and every owner is one of the nodes |
| Cluster.EveryGetIsAnswered | geeCache/geecache.go:65-125 | in every run of such a cluster each Get ends after at most one forwarding, with the getter's answer, an empty success or an error as its peer and the network decide; the empty key is refused |
| Cluster.RunCachesAtOwners | geeCache/geecache.go:80-129 | without failures keys are at every moment cached only at their owners |
| Singleflight.SingleflightHolds | geeCache/singleflight/singleflight.go:16-43 | without line 28: one leader per key, which deletes its own call, and every return is the result of the only run of fn for the call joined |
| Singleflight.RunKeepsInv | geeCache/singleflight/singleflight.go:16-43 | the invariant of every interleaving |
| Singleflight.FoundCallIsJoined | geeCache/singleflight/singleflight.go:23-26 | a Do that finds a call in flight joins that call, and in all later states is joined to it, waits for it or has returned its result |
| Singleflight.MissingCallIsMade | geeCache/singleflight/singleflight.go:29-34 | without line 28, a Do that finds none enters a call of its own under the key, unlocks and runs fn |
| Singleflight.StepsAdvance | geeCache/singleflight/singleflight.go:16-43 | every step takes its own thread forward and moves no other, so a Do takes at most eight steps |
| Singleflight.NoDeadlock | geeCache/singleflight/singleflight.go:16-43 | without line 28 some thread can always go on until all have returned |
| Singleflight.StuckForEver | geeCache/singleflight/singleflight.go:28-28 | as written, a Do that finds no call in flight holds the mutex in all later states and everyone is blocked |
| Singleflight.NoDoReturns | geeCache/singleflight/singleflight.go:16-43 | as written, no Do ever returns |
| RpcClient.Client.constructor | geeRpc/client.go:305-316 | numbering starts at 1 |
| RpcClient.Client.Close | geeRpc/client.go:163-171 | only the first Close succeeds; pending calls stay |
| RpcClient.Client.IsAvailable | geeRpc/client.go:173-177 | available until closed or shut down |
| RpcClient.Client.RegisterCall | geeRpc/client.go:180-192 | gives the call the next number, modulo 2^64, or refuses and leaves Seq alone |
| RpcClient.Client.RemoveCall | geeRpc/client.go:195-206 | takes out the call under a number; nothing once closed or shut down |
| RpcClient.Client.TerminateCalls | geeRpc/client.go:208-220 | every pending call gets the error and one completion per number it is pending under |
| RpcProtocol.RunKeepsInv | geeRpc/client.go:180-249 | the invariant of every interleaving: each call's duty to be completed lies in exactly one place |
| RpcProtocol.StepKeepsInv | geeRpc/client.go:180-249 | each single step of callers, receiver and Close keeps that invariant |
| RpcProtocol.CompletedOnce | geeRpc/client.go:180-249 | each call is completed at most once; when terminateCalls is through every registered call was completed once or removed by its own canceller, and no caller waits in vain |
| RpcProtocol.OpenClientSends | geeRpc/client.go:381-396 | in an open client a call is registered under the next number and written under it |
| RpcProtocol.FailedWriteCompletes | geeRpc/client.go:396-403 | a call that could not be written and is still pending is taken out and completed with that error |
| RpcProtocol.ReplyCompletesCall | geeRpc/client.go:224-246 | if header n is read and n is pending in the open client, the call registered under n is completed by exactly that reply, whatever callers and Close do before its body |
| RpcProtocol.UnknownReplyIsSkipped | geeRpc/client.go:231-234 | a reply that is not pending, or comes after Close, touches no call, and the receiver reads on |
| RpcProtocol.CloseRefusesLater | geeRpc/client.go:163-186 | after Close no call is registered any more |
| RpcProtocol.StepsAdvance | geeRpc/client.go:381-451 | every step of a caller takes it forward and nobody else moves it |
| RpcProtocol.NobodyIsStuck | geeRpc/client.go:208-249 | a caller is held up only by the sending lock or while it waits for its call, which it can give up; the receiver only by the lock or the server |
| RpcProtocol.DoneNeverBlocks | geeRpc/client.go:425-428 | the one-slot channel always has room when done is called, in send, receive and terminateCalls |
| RpcProtocol.LockHolderGoesOn | geeRpc/client.go:381-404 | whoever holds the sending lock can take a step |
| RpcProtocol.NumbersIdentifyCalls | geeRpc/client.go:180-206 | pending keys are their calls' numbers below the counter, numbers are unique, requests are written in increasing order, a reply fills only the call with its number |
| RpcProtocol.CancelTouchesOwnCallOnly | geeRpc/client.go:444-447 | cancelling takes out the own call only, and nothing for Seq 0 |
| RpcProtocol.TerminationReachesPending | geeRpc/client.go:208-220 | each pending call gets one completion with the given error, every other call none |
| RpcProtocol.HeaderFailureLooksLikeSuccess | geeRpc/client.go:224-248 | in every interleaving, a call completed by terminateCalls carries an error exactly if no header failed to be read |
| RpcProtocol.RunTells | geeRpc/client.go:208-220 | calls are completed by terminateCalls only when the receiver stops, with the error that tells which way it stopped |
| RpcProtocol.HeaderFailureExample | geeRpc/client.go:224-248 | a run in which a caller receives its call without an error although no reply came |
| RpcProtocol.CloseLeavesItToTermination | geeRpc/client.go:199-201 | a call pending in a closed client is completed by terminateCalls and nothing else |
| ServerList.KeptIsPlain | geeRpc/xclient/discovery_gee.go:50-54 | whatever the header, every address kept is non-empty, comma-free and without white space around it |
| ServerList.TrimSpaceTrims | geeRpc/xclient/discovery_gee.go:51-52 | what is cut off is white space, and none is left around the rest |
| ServerList.ParseOfPiece | geeRpc/xclient/discovery_gee.go:46-54 | a piece without commas is one trimmed address, or none if it is blank |
| ServerList.ParseOfPieces | geeRpc/xclient/discovery_gee.go:46-54 | and at a comma the header is parsed part by part |
| ServerList.ParseList | geeRpc/xclient/discovery_gee.go:46-54 | the loop keeps the non-blank pieces, trimmed, in order |
| ServerList.JoinParse | geeRpc/registry/registry.go:73-73 | parsing the joined header gives the list back exactly if every address is non-empty, comma-free and trimmed |
| Registry.BeatKeeps | geeRpc/registry/registry.go:37-50 | a heartbeat keeps the table in agreement with the log |
| Registry.FreshIffBeatWithin | geeRpc/registry/registry.go:59-59 | an address is alive exactly if some heartbeat of it is younger than the timeout, or there is no timeout |
| Registry.QueryAnswersAsLog | geeRpc/registry/registry.go:52-67 | with a non-decreasing clock the eagerly purged table answers as the full heartbeat log would |
| Registry.AscendingIsUnique | geeRpc/registry/registry.go:65-65 | the sorted answer is determined by its elements |
| Registry.LessIsTotal | geeRpc/registry/registry.go:65-65 | the string order is total and strict |
| Registry.LessIff | geeRpc/registry/registry.go:65-65 | one string is less if it is a proper prefix or has the smaller character at the first difference |
| Registry.LessIsTransitive | geeRpc/registry/registry.go:65-65 | and transitive |
| Registry.GeeRegistry.PutServer | geeRpc/registry/registry.go:37-50 | the address's time becomes now, no other changes |
| Registry.GeeRegistry.Collect | geeRpc/registry/registry.go:58-64 | whoever is dead at its reading is removed, whoever is alive is listed once |
| Registry.GeeRegistry.AliveServers | geeRpc/registry/registry.go:52-67 | a strictly sorted list: whoever has a heartbeat within the timeout at the end of the query is on it, and nobody who has none at its beginning |
| Discovery.GeeRegistryDiscovery.constructor | geeRpc/xclient/discovery_gee.go:19-28 | a zero timeout means ten seconds; nothing fetched yet |
| Discovery.GeeRegistryDiscovery.Refresh | geeRpc/xclient/discovery_gee.go:30-58 | as long as the list is younger than the timeout nothing is asked and nothing fails; else a failed fetch changes nothing and a successful one installs the parsed header |
| Discovery.GeeRegistryDiscovery.GetAll | geeRpc/xclient/discovery_gee.go:74-79 | the list held while it is younger than the timeout, else the list fetched or the error |
| Discovery.ListedBeat | geeRpc/registry/registry.go:73-73 | what the registry lists is what the client will read, and each address beat within the registry timeout |
| Discovery.RunKeepsInv | geeRpc/xclient/discovery_gee.go:30-58 | the invariant of every interleaving of heartbeats, queries and the single steps of fetches |
| Discovery.AnswersAreFresh | geeRpc/xclient/discovery_gee.go:74-79 | every address returned at time t sent a heartbeat after t minus registry timeout, discovery timeout and fetch time |
| Discovery.AsksOnlyWhenOld | geeRpc/xclient/discovery_gee.go:34-36 | the registry is asked only when the list is missing or as old as the timeout; otherwise the list is reused unchanged |
| Discovery.OnlyReceiveChanges | geeRpc/xclient/discovery_gee.go:39-57 | only the end of a successful fetch changes the list held, to what the registry listed |
| Discovery.AlwaysFreshIff | geeRpc/registry/registry.go:59-59 | that holds in all runs exactly if the registry timeout is not zero |

## Left out

- HTTP, sockets, gob, JSON, protobuf, templates, logging: I/O or unseen libraries. Peer calls answer or fail, CRC32 is any function, clock readings are parameters.
- `geeGorm`: reflection and SQL text.
- `geeRpc/server.go` and `service.go`: reflection; the server is an arbitrary source of replies, at any time and in any order.
- Dialing, `XClient`, broadcasting and server selection: only `GetAll` of the discovery client is used here.
- Route groups, static files and the collection of middleware: the chain starts from a given list of handlers.
- The POST path of the registry: it reads the response's header instead of the request's, so heartbeats start at `putServer`.
- Data races on the peer pool and on call fields: each critical section is one step.
- Wrap-around of the LRU's 64-bit byte count and of `len` sums: counts are unbounded.
- Strings are sequences of characters; lengths count characters where Go counts bytes.
- Values whose `Len` changes after insertion: an entry's length is fixed when it is added.
- The library's sorts are insertion sorts here; `container/list` is modelled as a ring with a sentinel.
- Handlers are told apart by a number in the router; what a handler does is modelled in the middleware chain only.
- Middleware.Context.Handle: a handler is a fixed finite list of calls of Next, panics and recovered blocks. That loses nothing about one request, since each handler starts at most once in it, but handlers that never end or that write `handlers` are not modelled.
- RpcProtocol.RunKeepsInv: runs shorter than 2^64 - 1 events, so that numbers do not wrap around, and calls made through `Client.Call`, so that no two share a `Done` channel.
- RpcProtocol.TerminationReachesPending: terminateCalls holds both locks while it completes the pending calls, so that is one step; so is reading a body and completing its call.
- RpcClient.Client.TerminateCalls: a delivery on the channel is a counter; that it does not block is a result of RpcProtocol.
- Panics inside singleflight's `fn`: it returns a result, a value or an error, or has not returned yet.
- Cluster.EveryGetIsAnswered: requests are handled one after another; concurrent loads of one key are the subject of Singleflight.
- A peer whose network call fails makes `httpGetter.Get` use a nil response before it looks at the error; this counts as a failed call here.
- Discovery.AnswersAreFresh: addresses are those that survive the header (ServerList.JoinParse), a fetch takes at most a given time, and the list is never replaced through `Update`.
- Discovery.GeeRegistryDiscovery.GetAll: refreshing and copying are one step, so no other caller comes between them; while one fetches, the lock keeps others out.
- GeeCache.Group.Load: the singleflight call around a load is left out here; it is the subject of Singleflight.
- LruBudget.BudgetHoldsIff: from 256 to the power m entries of size m on, short keys run out; then only LruBudget.BudgetHoldsGivenKeys applies.
- Cluster.UnseparatedLoops: each node's load is a fresh one. With singleflight around it the second request for the key at a node joins the first and waits, so after two forwards both nodes wait for ever instead of forwarding on.
- Cluster.EveryGetEndsIff: no node's address is the empty string, which the ring uses for "nobody".
- Middleware.EachRecoveryCatchesOne: the handlers are Recovery itself and handlers without a recover of their own; what other recovering handlers do is in Middleware.Context.Handle.
