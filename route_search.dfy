/** The station-selection logic of the route search panel (RouteSearch.tsx):
    the suggestion filter, the list of selected stations, and the search over
    every pair of selected stations.

    The component's state is a value; each handler maps one state to the next
    together with the follow-up it triggers (a search over the new list, or the
    empty route list that returns the map to showing every line). The route
    search for one pair (`findAllMinTransferRoutes`) is a parameter. */
module RouteSearch {
  import opened Catalog

  // ---------------------------------------------------------------------
  // Suggestions
  // ---------------------------------------------------------------------

  /** `s.includes(t)`: `t` occurs in `s` as a contiguous piece. */
  predicate Includes(s: string, t: string)
  {
    exists i :: 0 <= i <= |s| && t <= s[i..]
  }

  /** The filter condition of filterSuggestions: the lower-cased name holds the
      lower-cased input, and the name is not selected yet. */
  predicate Matches(lower: string -> string, selected: seq<string>, lowerInput: string, name: string)
  {
    Includes(lower(name), lowerInput) && name !in selected
  }

  /** `names.filter(...)`: the matching names, in their original order. */
  function Filter(names: seq<string>, lower: string -> string, selected: seq<string>, lowerInput: string): seq<string>
  {
    if names == [] then []
    else (if Matches(lower, selected, lowerInput, names[0]) then [names[0]] else []) +
         Filter(names[1..], lower, selected, lowerInput)
  }

  /** `s` is obtained from `t` by dropping some elements, keeping the order of
      the others. */
  predicate Subsequence(s: seq<string>, t: seq<string>)
    decreases |t|
  {
    s == [] || (t != [] && ((s[0] == t[0] && Subsequence(s[1..], t[1..])) || Subsequence(s, t[1..])))
  }

  /** The filter keeps exactly the matching names, keeps their order, and
      drops nothing that matches. */
  lemma {:induction false} FilterSpec(names: seq<string>, lower: string -> string, selected: seq<string>, lowerInput: string)
    ensures var f := Filter(names, lower, selected, lowerInput);
            (forall n :: n in f <==> n in names && Matches(lower, selected, lowerInput, n)) &&
            Subsequence(f, names)
  {
    if names != [] {
      FilterSpec(names[1..], lower, selected, lowerInput);
      assert names == [names[0]] + names[1..];
      var f := Filter(names, lower, selected, lowerInput);
      var rest := Filter(names[1..], lower, selected, lowerInput);
      if Matches(lower, selected, lowerInput, names[0]) {
        assert f == [names[0]] + rest && f[1..] == rest;
      } else {
        assert f == rest;
      }
      assert Subsequence(f, names);
    }
  }

  function Take(s: seq<string>, n: nat): seq<string>
  {
    if |s| <= n then s else s[..n]
  }

  /** filterSuggestions (RouteSearch.tsx:36-45), with `toLowerCase` as the
      parameter `lower`. */
  function FilterSuggestions(stationNames: seq<string>, selected: seq<string>, lower: string -> string, input: string)
    : (r: seq<string>)
    ensures input == [] ==> r == []
    ensures |r| <= 10
    ensures forall n :: n in r ==> n in stationNames && n !in selected && Includes(lower(n), lower(input))
  {
    if input == [] then []
    else
      var f := Filter(stationNames, lower, selected, lower(input));
      FilterSpec(stationNames, lower, selected, lower(input));
      assert forall n :: n in Take(f, 10) ==> n in f;
      Take(f, 10)
  }

  /** For a non-empty input the suggestions are the first matching names in
      list order: as many as match, up to ten, so that fewer than ten
      suggestions means every matching name is suggested. */
  lemma SuggestionsArePrefix(stationNames: seq<string>, selected: seq<string>, lower: string -> string, input: string)
    requires input != []
    ensures var f := Filter(stationNames, lower, selected, lower(input));
            var r := FilterSuggestions(stationNames, selected, lower, input);
            |r| == (if |f| < 10 then |f| else 10) && r == f[..|r|] &&
            Subsequence(f, stationNames) &&
            (|r| < 10 ==> forall n :: n in stationNames && Matches(lower, selected, lower(input), n) ==> n in r)
  {
    FilterSpec(stationNames, lower, selected, lower(input));
  }

  // ---------------------------------------------------------------------
  // The selected stations
  // ---------------------------------------------------------------------

  /** The part of the component state the handlers change. */
  datatype PanelState = PanelState(
    selected: seq<string>,
    inputValue: string,
    suggestions: seq<string>,
    showSuggestions: bool)

  /** What a handler sets off after updating the state: nothing, a search over
      the given stations, or `onRoutesFound([])`, which returns the map to
      showing every line. */
  datatype Followup = NoFollowup | Search(stations: seq<string>) | ShowAllLines

  /** handleInputChange (RouteSearch.tsx:47-51). */
  function HandleInputChange(st: PanelState, stationNames: seq<string>, lower: string -> string, value: string)
    : (r: PanelState)
    ensures r.selected == st.selected && r.inputValue == value && r.showSuggestions
    ensures r.suggestions == FilterSuggestions(stationNames, st.selected, lower, value)
  {
    st.(inputValue := value, suggestions := FilterSuggestions(stationNames, st.selected, lower, value), showSuggestions := true)
  }

  /** addStation (RouteSearch.tsx:53-65): append the station unless it is
      already selected, search when that leaves two or more selected, and in
      every case clear the input and hide the suggestions. */
  function AddStation(st: PanelState, station: string): (r: (PanelState, Followup))
    ensures NoDuplicates(st.selected) ==> NoDuplicates(r.0.selected)
    ensures forall x :: x in r.0.selected <==> x in st.selected || x == station
    ensures station in st.selected ==> r.0.selected == st.selected && r.1 == NoFollowup
    ensures station !in st.selected ==>
              r.0.selected == st.selected + [station] &&
              r.1 == (if |r.0.selected| >= 2 then Search(r.0.selected) else NoFollowup)
    ensures r.0.inputValue == [] && !r.0.showSuggestions && r.0.suggestions == st.suggestions
  {
    var next := st.(inputValue := [], showSuggestions := false);
    if station !in st.selected then
      var newStations := st.selected + [station];
      (next.(selected := newStations), if |newStations| >= 2 then Search(newStations) else NoFollowup)
    else
      (next, NoFollowup)
  }

  /** `stations.filter(s => s !== station)`. */
  function Without(stations: seq<string>, station: string): seq<string>
  {
    if stations == [] then []
    else (if stations[0] != station then [stations[0]] else []) + Without(stations[1..], station)
  }

  /** Removing a station keeps every other one, in order, and drops every copy
      of it. */
  lemma {:induction false} WithoutElements(stations: seq<string>, station: string)
    ensures var w := Without(stations, station);
            (forall x :: x in w <==> x in stations && x != station) && Subsequence(w, stations)
  {
    if stations != [] {
      WithoutElements(stations[1..], station);
      assert stations == [stations[0]] + stations[1..];
      var w := Without(stations, station);
      var rest := Without(stations[1..], station);
      if stations[0] != station {
        assert w == [stations[0]] + rest && w[1..] == rest;
      } else {
        assert w == rest;
      }
      assert Subsequence(w, stations);
    }
  }

  /** The removal keeps every other station with all its copies: only the
      station's own count drops, to zero. */
  lemma {:induction false} WithoutMultiset(stations: seq<string>, station: string)
    ensures multiset(Without(stations, station)) == multiset(stations)[station := 0]
  {
    if stations != [] {
      WithoutMultiset(stations[1..], station);
      assert stations == [stations[0]] + stations[1..];
      assert multiset(stations) == multiset{stations[0]} + multiset(stations[1..]);
      if stations[0] != station {
        assert Without(stations, station) == [stations[0]] + Without(stations[1..], station);
      }
    }
  }

  /** From a duplicate-free list the removal leaves a duplicate-free list, one
      element shorter when the station was there and unchanged when it was not. */
  lemma {:induction false} WithoutCount(stations: seq<string>, station: string)
    ensures var w := Without(stations, station);
            NoDuplicates(stations) ==>
              NoDuplicates(w) &&
              (station in stations ==> |w| == |stations| - 1) &&
              (station !in stations ==> w == stations)
  {
    if stations != [] && NoDuplicates(stations) {
      var t := stations[1..];
      assert NoDuplicates(t);
      WithoutCount(t, station);
      WithoutElements(t, station);
      assert stations == [stations[0]] + t;
      assert stations[0] !in t;
      var w := Without(stations, station);
      if stations[0] != station {
        assert w == [stations[0]] + Without(t, station);
        assert stations[0] !in Without(t, station);
      }
    }
  }

  /** removeStation (RouteSearch.tsx:67-78): drop the station; with fewer than
      two left show every line again, otherwise search over the rest. */
  function RemoveStation(st: PanelState, station: string): (r: (PanelState, Followup))
    ensures station !in r.0.selected
    ensures forall x :: x in r.0.selected <==> x in st.selected && x != station
    ensures Subsequence(r.0.selected, st.selected)
    ensures NoDuplicates(st.selected) ==> NoDuplicates(r.0.selected)
    ensures r.1 == (if |r.0.selected| < 2 then ShowAllLines else Search(r.0.selected))
    ensures r.0.inputValue == st.inputValue && r.0.suggestions == st.suggestions &&
            r.0.showSuggestions == st.showSuggestions
  {
    var newStations := Without(st.selected, station);
    WithoutElements(st.selected, station);
    WithoutCount(st.selected, station);
    (st.(selected := newStations), if |newStations| < 2 then ShowAllLines else Search(newStations))
  }

  /** clearAllStations (RouteSearch.tsx:80-84). */
  function ClearAllStations(st: PanelState): (r: (PanelState, Followup))
    ensures r.0.selected == [] && r.1 == ShowAllLines
    ensures r.0.inputValue == st.inputValue && r.0.suggestions == st.suggestions &&
            r.0.showSuggestions == st.showSuggestions
  {
    (st.(selected := []), ShowAllLines)
  }

  /** Adding a station that was not selected and removing it again restores
      the selection. */
  lemma {:induction false} AddThenRemove(selected: seq<string>, station: string)
    requires station !in selected
    ensures Without(selected + [station], station) == selected
  {
    if selected != [] {
      assert (selected + [station])[1..] == selected[1..] + [station];
      AddThenRemove(selected[1..], station);
      assert selected == [selected[0]] + selected[1..];
    }
  }

  /** On the panel state: adding an unselected station, then removing it,
      gives back the selection and shows every line again when the selection
      had fewer than two stations left. */
  lemma AddThenRemoveStation(st: PanelState, station: string)
    requires station !in st.selected
    ensures RemoveStation(AddStation(st, station).0, station).0.selected == st.selected
    ensures |st.selected| < 2 ==> RemoveStation(AddStation(st, station).0, station).1 == ShowAllLines
  {
    AddThenRemove(st.selected, station);
  }

  /** Adding the same station twice selects it once. */
  lemma AddIdempotent(st: PanelState, station: string)
    ensures AddStation(AddStation(st, station).0, station).0.selected == AddStation(st, station).0.selected
  {
  }

  /** The selection starts duplicate-free and every handler keeps it so. */
  lemma HandlersKeepNoDuplicates(st: PanelState, station: string)
    requires NoDuplicates(st.selected)
    ensures NoDuplicates(AddStation(st, station).0.selected)
    ensures NoDuplicates(RemoveStation(st, station).0.selected)
    ensures NoDuplicates(ClearAllStations(st).0.selected)
  {
  }

  // ---------------------------------------------------------------------
  // Searching every pair
  // ---------------------------------------------------------------------

  /** One route found for a pair: its path and its transfer count. */
  datatype FoundRoute = FoundRoute(path: seq<PathStep>, transfers: nat)

  /** What the pair search reports: whether it set an error, and its routes. */
  datatype PairResult = PairResult(hasError: bool, routes: seq<FoundRoute>)

  /** `findAllMinTransferRoutes(from, to, distanceThreshold)` for the current
      threshold. */
  type PairSearch = (string, string) -> PairResult

  /** A route of the result list, tagged with the pair it joins. */
  datatype Route = Route(from: string, to: string, path: seq<PathStep>, transfers: nat)

  const SelectTwoMessage: string := "2つ以上の駅を選択してください"
  const NoRouteMessage: string := "有効な経路が見つかりませんでした"

  /** The pairs (i, j) with i < j < n, in lexicographic order, from row 0 up to
      (but not including) row `i`. */
  function RowsBelow(i: nat, n: nat): seq<(nat, nat)>
  {
    if i == 0 then [] else RowsBelow(i - 1, n) + Row(i - 1, n, n)
  }

  /** The pairs (i, i + 1), ..., (i, j - 1). */
  function Row(i: nat, j: nat, n: nat): seq<(nat, nat)>
    decreases j
  {
    if j <= i + 1 then [] else Row(i, j - 1, n) + [(i, j - 1)]
  }

  /** Every unordered pair of positions below `n`, once each. */
  function Pairs(n: nat): seq<(nat, nat)>
  {
    RowsBelow(n, n)
  }

  predicate PairLess(p: (nat, nat), q: (nat, nat))
  {
    p.0 < q.0 || (p.0 == q.0 && p.1 < q.1)
  }

  lemma {:induction false} RowSpec(i: nat, j: nat, n: nat)
    ensures var r := Row(i, j, n);
            |r| == (if j <= i + 1 then 0 else j - i - 1) &&
            forall k :: 0 <= k < |r| ==> r[k] == (i, i + 1 + k)
    decreases j
  {
    if j > i + 1 {
      RowSpec(i, j - 1, n);
    }
  }

  lemma CountStep(i: nat, n: nat)
    requires 0 < i <= n
    ensures (i - 1) * (2 * n - i) + 2 * (n - i) == i * (2 * n - i - 1)
  {
    assert (i - 1) * (2 * n - i) == i * (2 * n - i) - (2 * n - i);
    assert i * (2 * n - i) == i * (2 * n - i - 1) + i;
  }

  /** The first `i` rows hold i * (2n - i - 1) / 2 pairs, all from rows below `i`. */
  lemma {:induction false} RowsBelowCount(i: nat, n: nat)
    requires i <= n
    ensures 2 * |RowsBelow(i, n)| == i * (2 * n - i - 1)
    ensures forall a :: 0 <= a < |RowsBelow(i, n)| ==> RowsBelow(i, n)[a].0 < i
  {
    if i > 0 {
      RowsBelowCount(i - 1, n);
      RowSpec(i - 1, n, n);
      CountStep(i, n);
      var head := RowsBelow(i - 1, n);
      var row := Row(i - 1, n, n);
      var r: seq<(nat, nat)> := head + row;
      forall a | |head| <= a < |r| ensures r[a].0 < i {
        assert r[a] == row[a - |head|];
      }
    }
  }

  /** The first `i` rows hold exactly the pairs i' < j < n with i' < i. */
  lemma {:induction false} RowsBelowMembers(i: nat, n: nat)
    requires i <= n
    ensures forall p :: p in RowsBelow(i, n) <==> p.0 < i && p.0 < p.1 < n
  {
    if i > 0 {
      RowsBelowMembers(i - 1, n);
      RowSpec(i - 1, n, n);
      var row := Row(i - 1, n, n);
      forall p ensures p in row <==> p.0 == i - 1 && p.0 < p.1 < n {
        if p.0 == i - 1 && p.0 < p.1 < n {
          assert row[p.1 - i] == p;
        }
      }
    }
  }

  /** The first `i` rows are in strictly increasing lexicographic order. */
  lemma {:induction false} RowsBelowOrdered(i: nat, n: nat)
    requires i <= n
    ensures forall a, b :: 0 <= a < b < |RowsBelow(i, n)| ==> PairLess(RowsBelow(i, n)[a], RowsBelow(i, n)[b])
  {
    if i > 0 {
      RowsBelowOrdered(i - 1, n);
      RowsBelowCount(i - 1, n);
      RowSpec(i - 1, n, n);
      var head := RowsBelow(i - 1, n);
      var row := Row(i - 1, n, n);
      var r := head + row;
      forall a, b | 0 <= a < b < |r| ensures PairLess(r[a], r[b]) {
        if b < |head| {
          assert r[a] == head[a] && r[b] == head[b];
        } else if a >= |head| {
          assert r[a] == row[a - |head|] && r[b] == row[b - |head|];
        } else {
          assert r[a] == head[a] && r[b] == row[b - |head|];
        }
      }
    }
  }

  /** `n(n - 1)/2` pairs in all: each pair i < j < n once, in lexicographic
      order. */
  lemma PairsSpec(n: nat)
    ensures 2 * |Pairs(n)| == n * (n - 1)
    ensures forall p :: p in Pairs(n) <==> p.0 < p.1 < n
    ensures forall a, b :: 0 <= a < b < |Pairs(n)| ==> PairLess(Pairs(n)[a], Pairs(n)[b])
  {
    RowsBelowCount(n, n);
    RowsBelowMembers(n, n);
    RowsBelowOrdered(n, n);
  }

  /** The routes kept from one pair: none when the search set an error or found
      nothing; otherwise each route tagged with the pair's two names. */
  function Kept(res: PairResult, from: string, to: string): (r: seq<Route>)
    ensures |r| == (if res.hasError then 0 else |res.routes|)
    ensures !res.hasError ==> forall k :: 0 <= k < |r| ==>
              r[k] == Route(from, to, res.routes[k].path, res.routes[k].transfers)
  {
    if !res.hasError && |res.routes| > 0 then TagRoutes(res.routes, from, to) else []
  }

  function TagRoutes(rs: seq<FoundRoute>, from: string, to: string): (r: seq<Route>)
    ensures |r| == |rs|
    ensures forall k :: 0 <= k < |r| ==> r[k] == Route(from, to, rs[k].path, rs[k].transfers)
  {
    if rs == [] then [] else TagRoutes(rs[..|rs| - 1], from, to) + [Route(from, to, rs[|rs| - 1].path, rs[|rs| - 1].transfers)]
  }

  /** The oracle calls made for `pairs`, as pairs of station names. */
  function Calls(stations: seq<string>, pairs: seq<(nat, nat)>): seq<(string, string)>
    requires InRange(pairs, |stations|)
  {
    if pairs == [] then []
    else Calls(stations, pairs[..|pairs| - 1]) + [(stations[pairs[|pairs| - 1].0], stations[pairs[|pairs| - 1].1])]
  }

  /** One call per pair, in the pairs' order, with the names at the pair's
      positions. */
  lemma {:induction false} CallsSpec(stations: seq<string>, pairs: seq<(nat, nat)>)
    requires InRange(pairs, |stations|)
    ensures |Calls(stations, pairs)| == |pairs|
    ensures forall k :: 0 <= k < |pairs| ==> Calls(stations, pairs)[k] == (stations[pairs[k].0], stations[pairs[k].1])
  {
    if pairs != [] {
      CallsSpec(stations, pairs[..|pairs| - 1]);
    }
  }

  /** The routes collected over `pairs`, pair by pair. */
  function Collect(stations: seq<string>, search: PairSearch, pairs: seq<(nat, nat)>): seq<Route>
    requires InRange(pairs, |stations|)
  {
    if pairs == [] then []
    else
      var p := pairs[|pairs| - 1];
      Collect(stations, search, pairs[..|pairs| - 1]) + Kept(search(stations[p.0], stations[p.1]), stations[p.0], stations[p.1])
  }

  lemma CollectSnoc(stations: seq<string>, search: PairSearch, pairs: seq<(nat, nat)>, p: (nat, nat))
    requires InRange(pairs, |stations|)
    requires p.0 < |stations| && p.1 < |stations|
    ensures InRange(pairs + [p], |stations|)
    ensures Collect(stations, search, pairs + [p]) ==
            Collect(stations, search, pairs) + Kept(search(stations[p.0], stations[p.1]), stations[p.0], stations[p.1])
  {
    assert (pairs + [p])[..|pairs|] == pairs;
  }

  /** Every collected route is a route the search found, without error, for
      one of the pairs, tagged with that pair's names. */
  lemma {:induction false} CollectSound(stations: seq<string>, search: PairSearch, pairs: seq<(nat, nat)>, rt: Route)
    requires InRange(pairs, |stations|)
    requires rt in Collect(stations, search, pairs)
    ensures exists k, m :: 0 <= k < |pairs| && CollectedFrom(stations, search, pairs[k], m, rt)
  {
    var init := pairs[..|pairs| - 1];
    var p := pairs[|pairs| - 1];
    var kept := Kept(search(stations[p.0], stations[p.1]), stations[p.0], stations[p.1]);
    if rt in kept {
      var m :| 0 <= m < |kept| && kept[m] == rt;
      assert CollectedFrom(stations, search, pairs[|pairs| - 1], m, rt);
    } else {
      CollectSound(stations, search, init, rt);
      var k, m :| 0 <= k < |init| && CollectedFrom(stations, search, init[k], m, rt);
      assert pairs[k] == init[k];
    }
  }

  /** Every route the search found, without error, for one of the pairs is
      collected, tagged with that pair's names. */
  lemma {:induction false} CollectComplete(stations: seq<string>, search: PairSearch, pairs: seq<(nat, nat)>,
                                           k: nat, m: nat, rt: Route)
    requires InRange(pairs, |stations|)
    requires k < |pairs| && CollectedFrom(stations, search, pairs[k], m, rt)
    ensures rt in Collect(stations, search, pairs)
  {
    var init := pairs[..|pairs| - 1];
    var p := pairs[|pairs| - 1];
    var kept := Kept(search(stations[p.0], stations[p.1]), stations[p.0], stations[p.1]);
    if k == |pairs| - 1 {
      assert kept[m] == rt;
    } else {
      assert init[k] == pairs[k];
      CollectComplete(stations, search, init, k, m, rt);
    }
  }

  /** `rt` is route `m` the search found, without error, for the stations at
      pair `p`, tagged with their names. */
  ghost predicate CollectedFrom(stations: seq<string>, search: PairSearch, p: (nat, nat), m: int, rt: Route)
    requires p.0 < |stations| && p.1 < |stations|
  {
    var res := search(stations[p.0], stations[p.1]);
    !res.hasError && 0 <= m < |res.routes| &&
    rt == Route(stations[p.0], stations[p.1], res.routes[m].path, res.routes[m].transfers)
  }

  /** Both positions of every pair lie below `n`. */
  predicate InRange(pairs: seq<(nat, nat)>, n: nat)
  {
    forall k :: 0 <= k < |pairs| ==> pairs[k].0 < n && pairs[k].1 < n
  }

  /** The pairs the two loops have searched before reaching (i, j). */
  function Scanned(i: nat, j: nat, n: nat): seq<(nat, nat)>
  {
    RowsBelow(i, n) + Row(i, j, n)
  }

  lemma ScannedInRange(i: nat, j: nat, n: nat)
    requires i < n && j <= n
    ensures InRange(Scanned(i, j, n), n)
  {
    RowsBelowMembers(i, n);
    RowSpec(i, j, n);
    var r := Scanned(i, j, n);
    forall k | 0 <= k < |r| ensures r[k].0 < n && r[k].1 < n {
      if k < |RowsBelow(i, n)| {
        assert r[k] in RowsBelow(i, n);
      }
    }
  }

  /** Searching pair (i, j) adds one call and that pair's kept routes. */
  lemma ScanStep(stations: seq<string>, search: PairSearch, i: nat, j: nat)
    requires i < j < |stations|
    ensures InRange(Scanned(i, j, |stations|), |stations|) && InRange(Scanned(i, j + 1, |stations|), |stations|)
    ensures Calls(stations, Scanned(i, j + 1, |stations|)) ==
            Calls(stations, Scanned(i, j, |stations|)) + [(stations[i], stations[j])]
    ensures Collect(stations, search, Scanned(i, j + 1, |stations|)) ==
            Collect(stations, search, Scanned(i, j, |stations|)) + Kept(search(stations[i], stations[j]), stations[i], stations[j])
  {
    var n := |stations|;
    ScannedSnoc(i, j, n);
    CallsSnoc(stations, Scanned(i, j, n), (i, j));
    CollectSnoc(stations, search, Scanned(i, j, n), (i, j));
  }

  lemma ScannedSnoc(i: nat, j: nat, n: nat)
    requires i < j < n
    ensures Scanned(i, j + 1, n) == Scanned(i, j, n) + [(i, j)]
    ensures InRange(Scanned(i, j, n), n) && InRange(Scanned(i, j + 1, n), n)
  {
    ScannedInRange(i, j, n);
    ScannedInRange(i, j + 1, n);
  }

  lemma CallsSnoc(stations: seq<string>, pairs: seq<(nat, nat)>, p: (nat, nat))
    requires InRange(pairs, |stations|) && p.0 < |stations| && p.1 < |stations|
    ensures InRange(pairs + [p], |stations|)
    ensures Calls(stations, pairs + [p]) == Calls(stations, pairs) + [(stations[p.0], stations[p.1])]
  {
    assert (pairs + [p])[..|pairs|] == pairs;
  }

  /** `routeResult.routes.forEach(route => routes.push({from, to, ...}))`. */
  method PushRoutes(routes: seq<Route>, found: seq<FoundRoute>, from: string, to: string) returns (routes': seq<Route>)
    ensures routes' == routes + TagRoutes(found, from, to)
  {
    routes' := routes;
    var k := 0;
    while k < |found|
      invariant 0 <= k <= |found|
      invariant routes' == routes + TagRoutes(found[..k], from, to)
    {
      assert found[..k + 1][..k] == found[..k];
      routes' := routes' + [Route(from, to, found[k].path, found[k].transfers)];
      k := k + 1;
    }
    assert found[..k] == found;
  }

  /** After the first `i` rows, `calls` and `routes` are those of the pairs
      searched so far. */
  predicate RowsDone(stations: seq<string>, search: PairSearch, i: nat, calls: seq<(string, string)>, routes: seq<Route>)
  {
    i <= |stations| &&
    InRange(RowsBelow(i, |stations|), |stations|) &&
    calls == Calls(stations, RowsBelow(i, |stations|)) &&
    routes == Collect(stations, search, RowsBelow(i, |stations|))
  }

  /** The inner loop of performSearch (RouteSearch.tsx:98-112): search the
      pairs (i, i + 1), ..., (i, n - 1) in turn, recording each call and
      pushing the routes of every search without error. */
  method SearchRow(stations: seq<string>, search: PairSearch, i: nat,
                   calls: seq<(string, string)>, routes: seq<Route>)
    returns (calls': seq<(string, string)>, routes': seq<Route>)
    requires i < |stations| && RowsDone(stations, search, i, calls, routes)
    ensures RowsDone(stations, search, i + 1, calls', routes')
  {
    var n := |stations|;
    calls', routes' := calls, routes;
    var j := i + 1;
    assert Scanned(i, j, n) == RowsBelow(i, n);
    while j < n
      invariant i + 1 <= j <= n
      invariant InRange(Scanned(i, j, n), n)
      invariant calls' == Calls(stations, Scanned(i, j, n))
      invariant routes' == Collect(stations, search, Scanned(i, j, n))
    {
      ScanStep(stations, search, i, j);
      ghost var next := Scanned(i, j + 1, n);
      var routeResult := search(stations[i], stations[j]);
      calls' := calls' + [(stations[i], stations[j])];
      if !routeResult.hasError && |routeResult.routes| > 0 {
        routes' := PushRoutes(routes', routeResult.routes, stations[i], stations[j]);
      }
      assert routes' == Collect(stations, search, next);
      j := j + 1;
      assert next == Scanned(i, j, n);
    }
    assert Scanned(i, j, n) == RowsBelow(i + 1, n);
  }

  /** The outer loop of performSearch (RouteSearch.tsx:97-113): every row of
      pairs in turn. */
  method SearchAllPairs(stations: seq<string>, search: PairSearch)
    returns (calls: seq<(string, string)>, routes: seq<Route>)
    ensures InRange(Pairs(|stations|), |stations|)
    ensures calls == Calls(stations, Pairs(|stations|))
    ensures routes == Collect(stations, search, Pairs(|stations|))
  {
    var n := |stations|;
    routes := [];
    calls := [];
    var i := 0;
    RowsDoneStart(stations, search);
    while i < n
      invariant 0 <= i <= n
      invariant RowsDone(stations, search, i, calls, routes)
    {
      calls, routes := SearchRow(stations, search, i, calls, routes);
      i := i + 1;
    }
    RowsDoneEnd(stations, search, calls, routes);
  }

  lemma RowsDoneStart(stations: seq<string>, search: PairSearch)
    ensures RowsDone(stations, search, 0, [], [])
  {
    assert RowsBelow(0, |stations|) == [];
  }

  lemma RowsDoneEnd(stations: seq<string>, search: PairSearch, calls: seq<(string, string)>, routes: seq<Route>)
    requires RowsDone(stations, search, |stations|, calls, routes)
    ensures InRange(Pairs(|stations|), |stations|)
    ensures calls == Calls(stations, Pairs(|stations|))
    ensures routes == Collect(stations, search, Pairs(|stations|))
  {
  }

  /** performSearch (RouteSearch.tsx:86-130), returning the error it leaves
      set, the route list it reports (if any) and the pair searches it makes,
      in order. With fewer than two stations it only sets the error. Otherwise
      it searches every pair i < j once, in lexicographic order, keeps the
      routes of the searches without error, and reports them, or sets the
      error when there are none. */
  method PerformSearch(stations: seq<string>, search: PairSearch)
    returns (error: string, reported: Option<seq<Route>>, calls: seq<(string, string)>)
    ensures |stations| < 2 ==> error == SelectTwoMessage && reported == None && calls == []
    ensures |stations| >= 2 ==> InRange(Pairs(|stations|), |stations|) && calls == Calls(stations, Pairs(|stations|))
    ensures |stations| >= 2 && Collect(stations, search, Pairs(|stations|)) == [] ==>
              error == NoRouteMessage && reported == None
    ensures |stations| >= 2 && Collect(stations, search, Pairs(|stations|)) != [] ==>
              error == [] && reported == Some(Collect(stations, search, Pairs(|stations|)))
  {
    if |stations| < 2 {
      error := SelectTwoMessage;
      reported := None;
      calls := [];
      return;
    }
    error := [];
    var routes;
    calls, routes := SearchAllPairs(stations, search);
    if |routes| == 0 {
      error := NoRouteMessage;
      reported := None;
    } else {
      reported := Some(routes);
    }
  }
}
