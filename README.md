# Transfer routing of the railway map, in Dafny

This project models the routing core of a railway-map web application:
- **Catalog.** Each line is an ordered list of named stations with coordinates. The catalog is the line table of `src/lines/index.ts`, indexed by line key.
- **Transfer groups.** Station occurrences are clustered into *transfer groups*.
  - The occurrences are scanned in catalog order. Each occurrence that no earlier group took seeds a new group.
  - A later occurrence joins that group when no group took it yet and it has the seed's name or is near the seed.
  - So the same name can still end up in several groups, when an earlier group took some of its occurrences by proximity.
- **Route search.** A query between two station names first tries a *same-line shortcut*: some member of the origin group and some member of the destination group lie on one line. Failing that, it runs a breadth-first search over the groups.
  - Group `g` is adjacent to group `h` when some member of `g` has a neighbour on its own line whose name resolves to `h` (`RouteFinder.Edge`).
  - The member's position on its line is the first index holding its name (`findIndex`). Its neighbours are the stations just before and just after that index.
  - A name resolves to the first group holding an occurrence with that name.
- **Search panel.** Around this sits the station-selection logic of the route search panel: name suggestions, the list of selected stations with add, remove and clear, and the search over every pair of selected stations.

Modules follow the source:
- `Catalog` (`catalog.dfy`): the line catalog, the flattened list of station occurrences, line lookup by key, `findIndex`, and the line segments that paths are built from.
- `Clustering` (`clustering.dfy`): `buildTransferStations` and `findTransferGroup`.
  - A pure specification (`GroupsFrom`) describes the groups by index.
  - The two loops of the source are methods proved equal to it.
  - The partition properties and the seed rule are proved about the specification.
- `RouteFinder` (`route_finder.dfy`): the same-line shortcut, the breadth-first search and `findMinTransferRoute`.
  - The search is proved against a graph on group positions (`Edge`, `Reachable`).
  - It returns a route exactly when the destination group is reachable.
  - Its result equals that of `BfsFrom`, the loop written as a recursive function of the queue and the visited set. So a route is the path and transfer count of the first dequeued entry for the destination group.
- `StationNames` (`station_names.dfy`): `getStationNames`. The set of names is collected in insertion order and then sorted. The sort order is JavaScript's default string order, written as `Less`.
- `RouteSearch` (`route_search.dfy`): the panel handlers.
  - Each handler is a function from one panel state to the next. It also returns the follow-up the handler triggers: a search, or showing every line again.
  - `performSearch` is proved against a function of the list of index pairs.

The search engine is parameterised so that a caller supplies what the model cannot compute:
- The distance test `calcDistance(a, b) < distanceThreshold` is a caller-supplied relation `near`.
- `toLowerCase` is a function parameter `lower`.
- The per-pair route search `findAllMinTransferRoutes` is a function parameter of type `PairSearch`. It is only imported by the panel; its definition is not part of this model.

Transfer groups are identified by their position in the group list. The source identifies them as objects in a `Set`; the two agree because each group is a distinct object of the one `transferGroups` array, so an object and its position in that array identify each other.

## Where the code departs from its evident intent

The model follows the code in each of these cases.

- **Extending a path in the search.**
  - Intended: the source's comment at `src/utils/routeFinder.ts:195` says the stations from the current station to the neighbour are added.
  - The code (`src/utils/routeFinder.ts:199-227`) appends the line's stations from the lower index plus one up to the higher index.
  - So a step towards a lower index appends the current station (the one at the higher index), not the neighbour (`RouteFinder.ExtendAdjacent`).
  - Intended: the comment at line 203 says a path that is empty at the origin starts from the current station. The code tests for a path of exactly one step and replaces it by the current station.
- **Transfers inside one group.**
  - Intended: changing between two occurrences of one transfer group on different lines is a transfer, as the search itself counts one when the expanding member's line differs from the entry's line (`src/utils/routeFinder.ts:189-190`).
  - The code's same-line shortcut compares every member of the origin group with every member of the destination group. When both names resolve to the same group, it pairs the first member with itself.
  - So such a query returns a one-step route with 0 transfers (`RouteFinder.FindMinTransferRoute`, `RouteFinder.ShortcutSameGroup`).
- **Minimality.**
  - Intended: the name `findMinTransferRoute` and the comments at lines 93 and 140 promise the route with the fewest transfers.
  - The code marks a group visited when it first queues it. It searches by group hops, not by transfers.
  - The model proves that the result is the one the breadth-first order picks (`RouteFinder.BfsFrom`), and that its count is at least the number of line changes along the path. It does not claim minimality.

## Model

| member | source | states |
|---|---|---|
| `Catalog.GetAllStationsWithLines` | src/utils/routeFinder.ts:35-48 | the result is every station of every line, line by line in catalog order, each tagged with its line's key |
| `Catalog.FlattenContents` | src/utils/routeFinder.ts:35-48 | the flattened list has one entry per listed station; every entry is some line's station tagged with that line's key, and every station of every line occurs in it |
| `Catalog.LineStations` | src/utils/routeFinder.ts:113 | looking a key up in the line table yields nothing exactly when no line has that key |
| `Catalog.LineStationsOfLine` | src/utils/routeFinder.ts:176 | with distinct keys, looking up a line's own key yields that line's stations |
| `Catalog.IndexOf` | src/utils/routeFinder.ts:114-115 | `findIndex` by name: -1 exactly when no station has the name, otherwise the first index holding it |
| `Catalog.FlattenedAreStations` | src/utils/routeFinder.ts:176-177 | for every flattened occurrence, its line lookup succeeds and its name's index on that line is not -1 |
| `Catalog.Segment` | src/utils/routeFinder.ts:122-128 | the steps for indices lo..hi: hi-lo+1 of them, step k being station lo+k tagged with the line's key |
| `Catalog.SegmentSteps` | src/utils/routeFinder.ts:122-128 | every step of a segment of a catalog line is a real station of the line it is tagged with |
| `Catalog.AppendSegment` | src/utils/routeFinder.ts:211-226 | the push loop appends exactly the segment lo..hi to the path |
| `Clustering.MembersSpec` | src/utils/routeFinder.ts:62-73 | the inner scan picks, in increasing order, exactly the indices of its range that are not yet processed and have the seed's name or are near the seed |
| `Clustering.OpenGroup` | src/utils/routeFinder.ts:59-73 | the group opened by seed i is the seed followed by those members, and the processed set grows by exactly these indices |
| `Clustering.BuildTransferStations` | src/utils/routeFinder.ts:51-81 | the seed loop produces exactly the specified transfer groups, in seed order |
| `Clustering.IndexGroupsPartition` | src/utils/routeFinder.ts:54-78 | the groups partition the occurrences: each group is non-empty and increasing, every occurrence lies in some group, and it lies in only one group, once |
| `Clustering.IndexGroupsSeedRule` | src/utils/routeFinder.ts:56-73 | group g starts at the smallest index no earlier group took; an index joins it exactly when it comes later, is untaken, and has the seed's name or is near the seed |
| `Clustering.TransferGroupsMembers` | src/utils/routeFinder.ts:51-81 | the members of the groups are exactly the catalog's occurrences, and no group is empty |
| `Clustering.FindTransferGroup` | src/utils/routeFinder.ts:84-88 | the first group having a member with that name; none exactly when no group has one |
| `Clustering.FindTransferGroupFound` | src/utils/routeFinder.ts:84-88 | a name resolves to a group exactly when some station of the catalog has that name |
| `RouteFinder.LinePath` | src/utils/routeFinder.ts:117-128 | the shortcut path runs over the line's stations from the lower to the higher of the two first indices, both included, ascending, tagged with the line |
| `RouteFinder.LinePathSymmetric` | src/utils/routeFinder.ts:117-119 | swapping origin and destination gives the same shortcut path |
| `RouteFinder.LinePathWellFormed` | src/utils/routeFinder.ts:117-134 | the shortcut path is non-empty, made of real stations of its line, and has no line change |
| `RouteFinder.SameLineShortcut` | src/utils/routeFinder.ts:110-138 | none exactly when no member pair shares a line with both names found; otherwise the segment of the first such pair in loop order |
| `RouteFinder.ShortcutSameGroup` | src/utils/routeFinder.ts:110-137 | for a group against itself, the first sharing pair is its first member with itself and the path has one step |
| `RouteFinder.LineChangesAppendRun` | src/utils/routeFinder.ts:211-226 | appending a run of steps on one line adds one line change exactly when the path did not already end on that line |
| `RouteFinder.ExtendPath` | src/utils/routeFinder.ts:193-228 | the built path is the parent path (or the current station alone, for a one-step parent) followed by the stations after the lower index up to the higher |
| `RouteFinder.ExtendAdjacent` | src/utils/routeFinder.ts:199-227 | for neighbouring indices the new path is the parent path (or the current station alone, for a one-step parent) followed by exactly one step: the station at the higher index, whichever way the search moves |
| `RouteFinder.ExtendSteps` | src/utils/routeFinder.ts:193-228 | an extended path stays non-empty and made of real stations of their tagged lines |
| `RouteFinder.ExtendLineChanges` | src/utils/routeFinder.ts:189-228 | the new transfer count, one more exactly when the line changes, still bounds the line changes of the extended path |
| `RouteFinder.ExtendedEntryOk` | src/utils/routeFinder.ts:184-235 | an entry queued along an edge is reachable from the origin, has a well-formed path, and has a transfer count bounding its line changes |
| `RouteFinder.VisitNeighbor` | src/utils/routeFinder.ts:184-236 | an unvisited found neighbour group is marked and queued with the extended path, the counted transfer and the current line; otherwise nothing changes |
| `RouteFinder.VisitKeepsFrontier` | src/utils/routeFinder.ts:184-236 | visiting one neighbour keeps the search invariant, leaves the neighbour's group visited, and queues one entry per newly visited group |
| `RouteFinder.ExpandStation` | src/utils/routeFinder.ts:175-238 | the new queue and visited set are exactly those of visiting the member's neighbours in order (`VisitAll`); every neighbour then resolves to a visited group, and the search invariant holds |
| `RouteFinder.ExpandGroup` | src/utils/routeFinder.ts:175-238 | the new queue and visited set are exactly those of expanding the group's members in order (`ExpandMembers`); the dequeued group's edges all end in visited groups, and the invariant holds |
| `RouteFinder.ExpandMembersGrowth` | src/utils/routeFinder.ts:175-238 | expanding a group's members only adds visited groups, keeps the old queue as a prefix, and queues one entry per newly visited group |
| `RouteFinder.VisitAllEntries` | src/utils/routeFinder.ts:184-237 | each entry queued while visiting a member's neighbours is for a group not visited before, found from one of the neighbours, and carries that neighbour's extended path, counted transfers and the member's line |
| `RouteFinder.ExpandMembersEntries` | src/utils/routeFinder.ts:175-238 | each entry queued while expanding a group is for a group not visited before, found from a neighbour of one of its members, and is that member's extended entry for the neighbour |
| `RouteFinder.BfsFromDecreases` | src/utils/routeFinder.ts:162-239 | one expansion keeps the visited groups and queued entries within the group list, and either visits a new group or shortens the queue, so the loop ends |
| `RouteFinder.SeedQueue` | src/utils/routeFinder.ts:150-157 | the initial queue holds, in member order, one zero-transfer entry per origin member whose path is that member on its own line |
| `RouteFinder.FrontierInit` | src/utils/routeFinder.ts:150-160 | the initial queue (one zero-transfer, one-step entry per origin member) and the visited set holding only the origin satisfy the search invariant |
| `RouteFinder.FrontierDequeue` | src/utils/routeFinder.ts:163-172 | the dequeued head is a valid, visited entry, and the rest of the queue keeps the invariant with the head's group being expanded |
| `RouteFinder.FrontierPush` | src/utils/routeFinder.ts:186-187 | marking a group visited and queueing a valid entry for it keeps the invariant |
| `RouteFinder.FrontierExhausted` | src/utils/routeFinder.ts:162-245 | an empty queue under the invariant means the destination group is unreachable |
| `RouteFinder.ClosedSetUnreachable` | src/utils/routeFinder.ts:162-239 | a set holding the origin and closed under edges holds every group reachable from the origin |
| `RouteFinder.Bfs` | src/utils/routeFinder.ts:140-245 | the result is that of `BfsFrom` on the origin's entries: the path and transfers of the first dequeued entry of the destination group, or no route; a route exactly when the destination group is reachable; the path is non-empty and well formed; transfers are at least its line changes; the same group gives its first member's one-step entry |
| `RouteFinder.TransferGroupsOnLines` | src/utils/routeFinder.ts:51-81 | every group member is a real station of its own line, and no group is empty |
| `RouteFinder.FindMinTransferRoute` | src/utils/routeFinder.ts:94-246 | not-found exactly when a name occurs nowhere, with one flag per name; otherwise a route exactly when the groups share a line or are connected; a shared line gives the first pair's segment with 0 transfers; without one the result is the breadth-first search's (`BfsFrom`); one group on both sides gives a one-step route |
| `StationNames.LessIrreflexive` | src/utils/routeFinder.ts:258 | no string sorts strictly before itself |
| `StationNames.LessTransitive` | src/utils/routeFinder.ts:258 | the string order is transitive |
| `StationNames.LessTotal` | src/utils/routeFinder.ts:258 | any two different strings are ordered one way or the other |
| `StationNames.SortSpec` | src/utils/routeFinder.ts:258 | sorting a list of distinct names yields a strictly increasing list with the same elements |
| `StationNames.SortedUnique` | src/utils/routeFinder.ts:258 | two strictly sorted lists with the same elements are equal, so the result depends only on the set of names |
| `StationNames.GetStationNames` | src/utils/routeFinder.ts:249-258 | the names are strictly sorted, free of duplicates, and are exactly the station names of the catalog |
| `RouteSearch.FilterSpec` | src/components/RouteSearch.tsx:39-43 | the filter keeps a name exactly when it matches and is unselected, in the list's order |
| `RouteSearch.FilterSuggestions` | src/components/RouteSearch.tsx:36-45 | no suggestions for an empty input; at most ten; each a listed, unselected name whose lower-cased form contains the lower-cased input |
| `RouteSearch.SuggestionsArePrefix` | src/components/RouteSearch.tsx:39-44 | the suggestions are the first min(matches, 10) matching names; fewer than ten then means every match is suggested |
| `RouteSearch.HandleInputChange` | src/components/RouteSearch.tsx:47-51 | the input takes the new value, the suggestions are those of the new value against the current selection, and they are shown |
| `RouteSearch.AddStation` | src/components/RouteSearch.tsx:53-65 | a selected station changes nothing in the selection; otherwise it is appended, with a search once two or more are selected; the input is cleared and the suggestions hidden; no duplicates arise |
| `RouteSearch.WithoutElements` | src/components/RouteSearch.tsx:68 | the filter drops every copy of the station and keeps the others in order |
| `RouteSearch.WithoutMultiset` | src/components/RouteSearch.tsx:68 | the filter keeps every other station with all its copies: only the removed station's count changes, to zero |
| `RouteSearch.WithoutCount` | src/components/RouteSearch.tsx:68 | on a list without duplicates the removal shortens it by one when the station was there and changes nothing otherwise |
| `RouteSearch.RemoveStation` | src/components/RouteSearch.tsx:67-78 | the station is gone, the others stay in order; fewer than two left shows every line, otherwise searches the rest |
| `RouteSearch.ClearAllStations` | src/components/RouteSearch.tsx:80-84 | the selection is emptied and every line is shown again |
| `RouteSearch.AddThenRemove` | src/components/RouteSearch.tsx:53-78 | appending an unselected station and filtering it out restores the list |
| `RouteSearch.AddThenRemoveStation` | src/components/RouteSearch.tsx:53-78 | add followed by remove restores the selection, and shows every line when fewer than two remain |
| `RouteSearch.AddIdempotent` | src/components/RouteSearch.tsx:53-62 | adding the same station twice selects it once |
| `RouteSearch.HandlersKeepNoDuplicates` | src/components/RouteSearch.tsx:53-84 | add, remove and clear keep the selection free of duplicates |
| `RouteSearch.PairsSpec` | src/components/RouteSearch.tsx:97-98 | the two loops visit n(n-1)/2 pairs: each i < j < n exactly once, in lexicographic order |
| `RouteSearch.CallsSpec` | src/components/RouteSearch.tsx:97-99 | one search call per pair, in pair order, with the two names at the pair's positions |
| `RouteSearch.Kept` | src/components/RouteSearch.tsx:101-110 | a search that set an error keeps nothing; otherwise each of its routes is kept, tagged with the pair's names |
| `RouteSearch.CollectSound` | src/components/RouteSearch.tsx:97-113 | every collected route is a route some pair's error-free search found, tagged with that pair's names |
| `RouteSearch.CollectComplete` | src/components/RouteSearch.tsx:97-113 | every route an error-free search found for a pair is collected |
| `RouteSearch.PushRoutes` | src/components/RouteSearch.tsx:103-110 | the forEach appends every found route, in order, tagged with the pair |
| `RouteSearch.SearchRow` | src/components/RouteSearch.tsx:98-112 | the inner loop extends the calls and routes from those of rows below i to those of rows below i+1 |
| `RouteSearch.SearchAllPairs` | src/components/RouteSearch.tsx:97-113 | the calls and routes are those of all pairs |
| `RouteSearch.PerformSearch` | src/components/RouteSearch.tsx:86-130 | fewer than two stations sets the select-two error and searches nothing; otherwise every pair is searched once in order; no kept route sets the no-route error; otherwise the error is cleared and every kept route is reported |

## Left out

- `calcDistance`: the floating-point equirectangular distance is not computed. The test `calcDistance(a, b) < distanceThreshold`, with the default threshold of 300 metres, is the parameter `near`.
- Station coordinates: they are carried as `real` and never computed with.
- `findMinTransferRoute` error messages: the two error strings are not carried. The result shapes (route, not-found with its two flags, no route) are.
- `findAllMinTransferRoutes`: its definition is not part of this model. It is the parameter `search`.
  - Its result is reduced to whether it set an error and the list of routes it returned.
- `toLowerCase`: it is the parameter `lower`. Unicode case mapping is not modelled.
- `StationNames.Less`: it compares Dafny characters. JavaScript compares UTF-16 code units. The two orders agree on characters of the Basic Multilingual Plane.
- The line table: each line is taken with its key, in `Object.entries` order. Keys are assumed distinct (`DistinctKeys`), as they are the keys of one object literal.
- The JavaScript `Set`s: they are sequences kept in insertion order, or Dafny sets where order does not matter.
- The React component itself is not modelled:
  - state hooks, the initial selection and the mount-time search, the click-outside listener, the rendered markup and styling
  - the console output selected by `logToConsole`
- `onRoutesFound` and `setError`: they appear as values the handlers return, namely `Followup` and the `error` and `reported` results of `PerformSearch`.
- `RouteSearch.PerformSearch`: its `calls` result records the search calls in order and is not a value of the source.
- `RouteFinder.Bfs`: the transfer count is proved to be at least the number of line changes along the path, not equal to it. The source counts a transfer whenever the expanding member's line differs from the entry's line (`src/utils/routeFinder.ts:189-190`). Two cases keep that change out of the path:
  - a one-step parent path is replaced by the expanding station on its own line (`src/utils/routeFinder.ts:204-208`), so the counted transfer has no earlier step on the old line to differ from;
  - the neighbour's name first occurs at the member's own index (a line repeating a name), so nothing is appended and the path is copied unchanged (`src/utils/routeFinder.ts:193`, `211-226`), while the entry's current line still moves to the member's line (`src/utils/routeFinder.ts:234`).
- `RouteFinder.Bfs`: the returned transfer count is not proved minimal. The source searches by group hops, not by transfers.
- `RouteFinder.Bfs`: running time is not modelled. The ghost counter `enqueued` is bounded by the origin group's size plus the number of groups minus one, but only the body ties it to the queue pushes; the contract does not promise that it counts them.
- `RouteFinder.Bfs`: it requires a non-empty origin group, which every group that `findTransferGroup` returns is (`Clustering.TransferGroupsMembers`).
- The map rendering, zoom and pan, and the line data files are not modelled.
