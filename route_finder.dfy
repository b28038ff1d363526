/** findMinTransferRoute (routeFinder.ts:94-246): resolve both names to
    transfer groups, try the same-line shortcut, otherwise run a breadth-first
    search over groups with one shared visited set.

    The search graph has the transfer groups as nodes. Group `g` has an edge
    to group `h` when some member of `g`, looked up by name on its own line,
    has a neighbouring station on that line whose name resolves to `h`
    (`Edge`). The search is proved complete for that graph: it reports no
    route exactly when the destination group is unreachable from the origin
    group. */
module RouteFinder {
  import opened Catalog
  import opened Clustering

  /** The three result shapes of findMinTransferRoute: `{ path, transfers,
      error: null }`, the not-found error with both flags, and the
      no-route error with `path` and `transfers` null. */
  datatype RouteResult =
    | Route(path: seq<PathStep>, transfers: nat)
    | StationNotFound(fromFound: bool, toFound: bool)
    | NoRouteFound

  function Min(a: int, b: int): int { if a <= b then a else b }
  function Max(a: int, b: int): int { if a <= b then b else a }

  // ---------------------------------------------------------------------
  // Same-line shortcut (routeFinder.ts:110-138)
  // ---------------------------------------------------------------------

  /** The pair passes the shortcut's test: same line key, and both names are
      found on that line. */
  predicate SharesLine(cat: LineCatalog, f: StationWithLine, t: StationWithLine)
  {
    f.lineName == t.lineName && LineStations(cat, f.lineName).Some? &&
    IndexOf(LineStations(cat, f.lineName).value, f.name) != -1 &&
    IndexOf(LineStations(cat, f.lineName).value, t.name) != -1
  }

  /** The shortcut's path: the line's stations between the two names' first
      indices, both ends included, in ascending line order, all tagged with
      the line's key. */
  function LinePath(cat: LineCatalog, f: StationWithLine, t: StationWithLine): (r: seq<PathStep>)
    requires SharesLine(cat, f, t)
    ensures var ls := LineStations(cat, f.lineName).value;
            var fi := IndexOf(ls, f.name);
            var ti := IndexOf(ls, t.name);
            |r| == Max(fi, ti) - Min(fi, ti) + 1 &&
            forall k :: 0 <= k < |r| ==> r[k] == PathStep(Tag(ls[Min(fi, ti) + k], f.lineName), f.lineName)
  {
    var ls := LineStations(cat, f.lineName).value;
    var fi := IndexOf(ls, f.name);
    var ti := IndexOf(ls, t.name);
    Segment(ls, Min(fi, ti), Max(fi, ti), f.lineName)
  }

  /** The shortcut path does not depend on which endpoint is the origin. */
  lemma LinePathSymmetric(cat: LineCatalog, f: StationWithLine, t: StationWithLine)
    requires SharesLine(cat, f, t)
    ensures SharesLine(cat, t, f) && LinePath(cat, f, t) == LinePath(cat, t, f)
  {
  }

  /** `(a, b)` is the first pair, in the order of the two nested loops, that
      passes the shortcut's test. */
  ghost predicate FirstShared(cat: LineCatalog, from: seq<StationWithLine>, to: seq<StationWithLine>, a: int, b: int)
  {
    0 <= a < |from| && 0 <= b < |to| && SharesLine(cat, from[a], to[b]) &&
    (forall a', b' :: 0 <= a' < a && 0 <= b' < |to| ==> !SharesLine(cat, from[a'], to[b'])) &&
    (forall b' :: 0 <= b' < b ==> !SharesLine(cat, from[a], to[b']))
  }

  /** The shortcut loops: the first member pair sharing a line gives that
      line's segment; no such pair gives None. */
  method SameLineShortcut(cat: LineCatalog, from: seq<StationWithLine>, to: seq<StationWithLine>)
    returns (r: Option<seq<PathStep>>)
    requires forall m :: m in from ==> LineStations(cat, m.lineName).Some?
    requires forall m :: m in to ==> LineStations(cat, m.lineName).Some?
    ensures r.None? <==> !AnyShared(cat, from, to)
    ensures r.Some? ==> exists a, b :: FirstShared(cat, from, to, a, b) && r.value == LinePath(cat, from[a], to[b])
  {
    var a := 0;
    while a < |from|
      invariant 0 <= a <= |from|
      invariant forall a', b' :: 0 <= a' < a && 0 <= b' < |to| ==> !SharesLine(cat, from[a'], to[b'])
    {
      var fromStation := from[a];
      var b := 0;
      while b < |to|
        invariant 0 <= b <= |to|
        invariant forall b' :: 0 <= b' < b ==> !SharesLine(cat, fromStation, to[b'])
      {
        var toStation := to[b];
        if fromStation.lineName == toStation.lineName {
          var lineData := LineStations(cat, fromStation.lineName).value;
          var fromIndex := IndexOf(lineData, fromStation.name);
          var toIndex := IndexOf(lineData, toStation.name);
          if fromIndex != -1 && toIndex != -1 {
            var start := Min(fromIndex, toIndex);
            var end := Max(fromIndex, toIndex);
            var path := AppendSegment([], lineData, start, end, fromStation.lineName);
            assert FirstShared(cat, from, to, a, b);
            return Some(path);
          }
        }
        b := b + 1;
      }
      a := a + 1;
    }
    return None;
  }

  /** Some member pair of the two groups passes the shortcut's test. */
  ghost predicate AnyShared(cat: LineCatalog, from: seq<StationWithLine>, to: seq<StationWithLine>)
  {
    exists a, b :: 0 <= a < |from| && 0 <= b < |to| && SharesLine(cat, from[a], to[b])
  }

  /** A member of a group that is a station of its line passes the shortcut's
      test with itself. */
  lemma SameGroupShares(cat: LineCatalog, members: seq<StationWithLine>)
    requires |members| > 0 && forall m :: m in members ==> IsStationOf(cat, m)
    ensures SharesLine(cat, members[0], members[0])
  {
    var m := members[0];
    assert m in members;
    var ls := LineStations(cat, m.lineName).value;
    var k :| 0 <= k < |ls| && Tag(ls[k], m.lineName) == m;
    assert ls[k].name == m.name;
  }

  /** So the shortcut meets a group with itself at its first member, and the
      path it builds has one step. */
  lemma ShortcutSameGroup(cat: LineCatalog, members: seq<StationWithLine>, a: int, b: int)
    requires |members| > 0 && forall m :: m in members ==> IsStationOf(cat, m)
    requires FirstShared(cat, members, members, a, b)
    ensures a == 0 && b == 0 && |LinePath(cat, members[a], members[b])| == 1
  {
    SameGroupShares(cat, members);
  }

  /** The members of one group, stated by membership. */
  lemma MembersOfGroup(cat: LineCatalog, groups: seq<seq<StationWithLine>>, g: nat)
    requires MembersOnLines(cat, groups) && g < |groups|
    ensures forall m :: m in groups[g] ==> IsStationOf(cat, m)
  {
    forall m | m in groups[g] ensures IsStationOf(cat, m) {
      var i :| 0 <= i < |groups[g]| && groups[g][i] == m;
    }
  }

  /** Every run of steps on one line has no line change. */
  lemma {:induction false} LineChangesOneLine(q: seq<PathStep>, key: string)
    requires forall i :: 0 <= i < |q| ==> q[i].lineName == key
    ensures LineChanges(q) == 0
    decreases |q|
  {
    if |q| > 1 {
      LineChangesOneLine(q[..|q| - 1], key);
    }
  }

  /** The shortcut path is non-empty, made of real stations of its line, and
      changes line nowhere: zero transfers is exact for it. */
  lemma LinePathWellFormed(cat: LineCatalog, f: StationWithLine, t: StationWithLine)
    requires SharesLine(cat, f, t)
    ensures var p := LinePath(cat, f, t);
            |p| > 0 && (forall i :: 0 <= i < |p| ==> StepOk(cat, p[i])) && LineChanges(p) == 0
  {
    var p := LinePath(cat, f, t);
    var ls := LineStations(cat, f.lineName).value;
    SegmentSteps(cat, f.lineName, Min(IndexOf(ls, f.name), IndexOf(ls, t.name)), Max(IndexOf(ls, f.name), IndexOf(ls, t.name)));
    assert forall i :: 0 <= i < |p| ==> p[i] in p;
    LineChangesOneLine(p, f.lineName);
  }

  // ---------------------------------------------------------------------
  // The group graph
  // ---------------------------------------------------------------------

  /** The neighbours list of routeFinder.ts:180-182: the previous station when
      the index is above 0, then the next when it is below the last index. */
  function NeighborStations(ls: seq<Station>, idx: int): seq<Station>
    requires -1 <= idx < |ls|
  {
    (if idx > 0 then [ls[idx - 1]] else []) + (if idx < |ls| - 1 then [ls[idx + 1]] else [])
  }

  /** The neighbours the search considers for member `m`, found through its
      line and the first index of its name on that line. */
  function MemberNeighbors(cat: LineCatalog, m: StationWithLine): seq<Station>
  {
    match LineStations(cat, m.lineName)
    case None => []
    case Some(ls) => NeighborStations(ls, IndexOf(ls, m.name))
  }

  /** The group that neighbour `k` of member `m` of group `g` resolves to. */
  function NeighborGroup(cat: LineCatalog, groups: seq<seq<StationWithLine>>, g: nat, m: nat, k: nat): Option<nat>
    requires g < |groups| && m < |groups[g]| && k < |MemberNeighbors(cat, groups[g][m])|
  {
    FindTransferGroup(MemberNeighbors(cat, groups[g][m])[k].name, groups)
  }

  ghost predicate Edge(cat: LineCatalog, groups: seq<seq<StationWithLine>>, g: nat, h: nat)
  {
    g < |groups| &&
    exists m, k :: 0 <= m < |groups[g]| && 0 <= k < |MemberNeighbors(cat, groups[g][m])| &&
                   NeighborGroup(cat, groups, g, m, k) == Some(h)
  }

  ghost predicate IsWalk(cat: LineCatalog, groups: seq<seq<StationWithLine>>, w: seq<nat>, from: nat, to: nat)
  {
    |w| > 0 && w[0] == from && w[|w| - 1] == to &&
    forall i :: 0 <= i < |w| - 1 ==> Edge(cat, groups, w[i], w[i + 1])
  }

  ghost predicate Reachable(cat: LineCatalog, groups: seq<seq<StationWithLine>>, from: nat, to: nat)
  {
    exists w :: IsWalk(cat, groups, w, from, to)
  }

  lemma ReachableRefl(cat: LineCatalog, groups: seq<seq<StationWithLine>>, from: nat)
    ensures Reachable(cat, groups, from, from)
  {
    assert IsWalk(cat, groups, [from], from, from);
  }

  lemma ReachableStep(cat: LineCatalog, groups: seq<seq<StationWithLine>>, from: nat, g: nat, h: nat)
    requires Reachable(cat, groups, from, g) && Edge(cat, groups, g, h)
    ensures Reachable(cat, groups, from, h)
  {
    var w :| IsWalk(cat, groups, w, from, g);
    var w' := w + [h];
    forall i | 0 <= i < |w'| - 1 ensures Edge(cat, groups, w'[i], w'[i + 1]) {
      if i < |w| - 1 {
        assert w'[i] == w[i] && w'[i + 1] == w[i + 1];
      }
    }
    assert IsWalk(cat, groups, w', from, h);
  }

  /** Each resolved neighbour is an edge of the group graph. */
  lemma NeighborEdge(cat: LineCatalog, groups: seq<seq<StationWithLine>>, g: nat, m: nat, k: nat)
    requires g < |groups| && m < |groups[g]| && k < |MemberNeighbors(cat, groups[g][m])|
    requires NeighborGroup(cat, groups, g, m, k).Some?
    ensures Edge(cat, groups, g, NeighborGroup(cat, groups, g, m, k).value)
  {
  }

  /** Every neighbour of member `m` of group `g` resolves to a group in `V`. */
  ghost predicate StationClosed(cat: LineCatalog, groups: seq<seq<StationWithLine>>, V: set<nat>, g: nat, m: nat)
    requires g < |groups| && m < |groups[g]|
  {
    NeighborsBelow(cat, groups, V, g, m, |MemberNeighbors(cat, groups[g][m])|)
  }

  /** The first `n` neighbours of member `m` of group `g` resolve to groups in
      `V` (or to none). */
  ghost predicate NeighborsBelow(cat: LineCatalog, groups: seq<seq<StationWithLine>>, V: set<nat>, g: nat, m: nat, n: nat)
    requires g < |groups| && m < |groups[g]| && n <= |MemberNeighbors(cat, groups[g][m])|
  {
    forall k :: 0 <= k < n && NeighborGroup(cat, groups, g, m, k).Some? ==> NeighborGroup(cat, groups, g, m, k).value in V
  }

  /** The first `n` members of group `g` are closed in `V`. */
  ghost predicate MembersBelow(cat: LineCatalog, groups: seq<seq<StationWithLine>>, V: set<nat>, g: nat, n: nat)
    requires g < |groups| && n <= |groups[g]|
  {
    forall m :: 0 <= m < n ==> StationClosed(cat, groups, V, g, m)
  }

  /** Every edge out of group `g` ends in `V`. */
  ghost predicate ClosedAt(cat: LineCatalog, groups: seq<seq<StationWithLine>>, V: set<nat>, g: nat)
    requires g < |groups|
  {
    MembersBelow(cat, groups, V, g, |groups[g]|)
  }

  lemma NeighborsBelowStep(cat: LineCatalog, groups: seq<seq<StationWithLine>>, V: set<nat>, V': set<nat>, g: nat, m: nat, n: nat)
    requires g < |groups| && m < |groups[g]| && n < |MemberNeighbors(cat, groups[g][m])|
    requires NeighborsBelow(cat, groups, V, g, m, n) && V <= V'
    requires NeighborGroup(cat, groups, g, m, n).Some? ==> NeighborGroup(cat, groups, g, m, n).value in V'
    ensures NeighborsBelow(cat, groups, V', g, m, n + 1)
  {
  }

  lemma MembersBelowStep(cat: LineCatalog, groups: seq<seq<StationWithLine>>, V: set<nat>, V': set<nat>, g: nat, n: nat)
    requires g < |groups| && n < |groups[g]|
    requires MembersBelow(cat, groups, V, g, n) && V <= V' && StationClosed(cat, groups, V', g, n)
    ensures MembersBelow(cat, groups, V', g, n + 1)
  {
    forall m | 0 <= m < n ensures StationClosed(cat, groups, V', g, m) {
      assert StationClosed(cat, groups, V, g, m);
    }
  }

  lemma {:induction false} WalkStaysIn(cat: LineCatalog, groups: seq<seq<StationWithLine>>, V: set<nat>,
                                       w: seq<nat>, from: nat, to: nat, i: nat)
    requires IsWalk(cat, groups, w, from, to) && from in V && i < |w|
    requires forall g :: g in V ==> g < |groups| && ClosedAt(cat, groups, V, g)
    ensures w[i] in V
  {
    if i > 0 {
      WalkStaysIn(cat, groups, V, w, from, to, i - 1);
      assert Edge(cat, groups, w[i - 1], w[i]);
      var m, k :| 0 <= m < |groups[w[i - 1]]| && 0 <= k < |MemberNeighbors(cat, groups[w[i - 1]][m])| &&
                  NeighborGroup(cat, groups, w[i - 1], m, k) == Some(w[i]);
      assert StationClosed(cat, groups, V, w[i - 1], m);
    }
  }

  /** A set of groups that contains the origin and is closed under edges
      contains every group reachable from the origin. */
  lemma ClosedSetUnreachable(cat: LineCatalog, groups: seq<seq<StationWithLine>>, V: set<nat>, from: nat, to: nat)
    requires from in V && to !in V
    requires forall g :: g in V ==> g < |groups| && ClosedAt(cat, groups, V, g)
    ensures !Reachable(cat, groups, from, to)
  {
    if Reachable(cat, groups, from, to) {
      var w :| IsWalk(cat, groups, w, from, to);
      WalkStaysIn(cat, groups, V, w, from, to, |w| - 1);
    }
  }

  // ---------------------------------------------------------------------
  // Paths and transfer counts
  // ---------------------------------------------------------------------

  /** The number of consecutive step pairs whose line differs. */
  function LineChanges(p: seq<PathStep>): nat
  {
    if |p| <= 1 then 0
    else LineChanges(p[..|p| - 1]) + (if p[|p| - 2].lineName != p[|p| - 1].lineName then 1 else 0)
  }

  /** One more step adds a line change exactly when its line differs from
      the line the path ends on. */
  lemma LineChangesSnoc(p: seq<PathStep>, s: PathStep)
    requires |p| > 0
    ensures LineChanges(p + [s]) == LineChanges(p) + (if p[|p| - 1].lineName != s.lineName then 1 else 0)
  {
    assert (p + [s])[..|p|] == p;
  }

  /** Appending steps that are all on line `key` adds at most one line change:
      one exactly when the path did not already end on `key`. */
  lemma {:induction false} LineChangesAppendRun(p: seq<PathStep>, q: seq<PathStep>, key: string)
    requires |p| > 0
    requires forall i :: 0 <= i < |q| ==> q[i].lineName == key
    ensures LineChanges(p + q) == LineChanges(p) + (if |q| > 0 && p[|p| - 1].lineName != key then 1 else 0)
    decreases |q|
  {
    if |q| == 0 {
      assert p + q == p;
    } else {
      var q' := q[..|q| - 1];
      LineChangesAppendRun(p, q', key);
      assert p + q == (p + q') + [q[|q| - 1]];
      LineChangesSnoc(p + q', q[|q| - 1]);
      if |q'| == 0 {
        assert p + q' == p;
      } else {
        assert (p + q')[|p + q'| - 1] == q'[|q'| - 1];
      }
    }
  }

  /** routeFinder.ts:193-228: copy the parent path (replacing it by the
      expanding station when it has a single step), then append the line's
      stations strictly after the lower of the two indices up to the higher,
      tagged with the expanding station's line. */
  function ExtendedPath(path: seq<PathStep>, c: StationWithLine, ls: seq<Station>, ci: int, ni: int): seq<PathStep>
    requires -1 <= ci < |ls| && -1 <= ni < |ls|
  {
    if ci == -1 || ni == -1 then path
    else (if |path| == 1 then [PathStep(c, c.lineName)] else path) + Segment(ls, Min(ci, ni) + 1, Max(ci, ni), c.lineName)
  }

  /** For neighbouring indices the extension is one step, and that step is the
      station with the higher index, whichever way the search moves: moving to
      a lower index appends the current station (the one at the higher
      index), not the neighbour. A
      one-step parent path is first replaced by the expanding station. */
  lemma ExtendAdjacent(path: seq<PathStep>, c: StationWithLine, ls: seq<Station>, ci: int, ni: int)
    requires 0 <= ci < |ls| && 0 <= ni < |ls| && (ni == ci + 1 || ni == ci - 1)
    ensures ExtendedPath(path, c, ls, ci, ni) ==
            (if |path| == 1 then [PathStep(c, c.lineName)] else path) + [PathStep(Tag(ls[Max(ci, ni)], c.lineName), c.lineName)]
  {
  }

  /** The path-building code of routeFinder.ts:193-228. */
  method ExtendPath(path: seq<PathStep>, c: StationWithLine, ls: seq<Station>, currentIndex: int, neighborIndex: int)
    returns (fullPath: seq<PathStep>)
    requires -1 <= currentIndex < |ls| && -1 <= neighborIndex < |ls|
    ensures fullPath == ExtendedPath(path, c, ls, currentIndex, neighborIndex)
  {
    fullPath := path;
    if currentIndex != -1 && neighborIndex != -1 {
      var start := Min(currentIndex, neighborIndex);
      var end := Max(currentIndex, neighborIndex);
      if |path| == 1 {
        fullPath := [PathStep(c, c.lineName)];
        fullPath := AppendSegment(fullPath, ls, start + 1, end, c.lineName);
      } else {
        fullPath := AppendSegment(fullPath, ls, start + 1, end, c.lineName);
      }
    }
  }

  /** A search entry: the group reached, the path so far, the transfers
      counted and the line last ridden. */
  datatype QueueEntry = QueueEntry(group: nat, path: seq<PathStep>, transfers: nat, currentLine: string)

  /** What holds of every entry ever queued: its group is reachable, its path
      is non-empty and made of real stations, and its transfer count is at
      least the path's line changes (plus one more if the path does not end
      on the entry's current line). */
  ghost predicate EntryOk(cat: LineCatalog, groups: seq<seq<StationWithLine>>, fromG: nat, e: QueueEntry)
  {
    e.group < |groups| && |e.path| > 0 &&
    (forall i :: 0 <= i < |e.path| ==> StepOk(cat, e.path[i])) &&
    LineChanges(e.path) + (if e.path[|e.path| - 1].lineName != e.currentLine then 1 else 0) <= e.transfers &&
    Reachable(cat, groups, fromG, e.group)
  }

  /** Extending a path from a real member keeps every step well formed. */
  lemma ExtendSteps(cat: LineCatalog, path: seq<PathStep>, c: StationWithLine, ls: seq<Station>, ci: int, ni: int)
    requires |path| > 0 && forall i :: 0 <= i < |path| ==> StepOk(cat, path[i])
    requires IsStationOf(cat, c) && LineStations(cat, c.lineName) == Some(ls)
    requires -1 <= ci < |ls| && -1 <= ni < |ls|
    ensures var p := ExtendedPath(path, c, ls, ci, ni);
            |p| > 0 && forall i :: 0 <= i < |p| ==> StepOk(cat, p[i])
  {
    if ci != -1 && ni != -1 {
      var base := if |path| == 1 then [PathStep(c, c.lineName)] else path;
      var seg := Segment(ls, Min(ci, ni) + 1, Max(ci, ni), c.lineName);
      SegmentSteps(cat, c.lineName, Min(ci, ni) + 1, Max(ci, ni));
      var p := base + seg;
      assert ExtendedPath(path, c, ls, ci, ni) == p;
      forall i | 0 <= i < |p| ensures StepOk(cat, p[i]) {
        if i >= |base| {
          assert p[i] == seg[i - |base|] && seg[i - |base|] in seg;
        }
      }
    }
  }

  /** The transfer count of an extended entry, which adds one exactly when the
      line changes, still bounds the line changes of its path. */
  lemma ExtendLineChanges(path: seq<PathStep>, transfers: int, currentLine: string,
                          c: StationWithLine, ls: seq<Station>, ci: int, ni: int)
    requires |path| > 0
    requires LineChanges(path) + (if path[|path| - 1].lineName != currentLine then 1 else 0) <= transfers
    requires -1 <= ci < |ls| && -1 <= ni < |ls|
    ensures var p := ExtendedPath(path, c, ls, ci, ni);
            |p| > 0 &&
            LineChanges(p) + (if p[|p| - 1].lineName != c.lineName then 1 else 0) <=
              transfers + (if currentLine != c.lineName then 1 else 0)
  {
    if ci != -1 && ni != -1 {
      var base := if |path| == 1 then [PathStep(c, c.lineName)] else path;
      assert LineChanges(base) + (if base[|base| - 1].lineName != c.lineName then 1 else 0) <=
             transfers + (if currentLine != c.lineName then 1 else 0);
      var seg := Segment(ls, Min(ci, ni) + 1, Max(ci, ni), c.lineName);
      SegmentOnLine(base, seg, c.lineName);
      assert ExtendedPath(path, c, ls, ci, ni) == base + seg;
    }
  }

  /** Appending a run on `key` keeps the line changes plus a pending change
      to `key` as they were. */
  lemma SegmentOnLine(base: seq<PathStep>, seg: seq<PathStep>, key: string)
    requires |base| > 0 && forall i :: 0 <= i < |seg| ==> seg[i].lineName == key
    ensures var p := base + seg;
            LineChanges(p) + (if p[|p| - 1].lineName != key then 1 else 0) ==
            LineChanges(base) + (if base[|base| - 1].lineName != key then 1 else 0)
  {
    LineChangesAppendRun(base, seg, key);
    if |seg| > 0 {
      assert (base + seg)[|base + seg| - 1] == seg[|seg| - 1];
    } else {
      assert base + seg == base;
    }
  }

  /** An entry extended from a real member of the expanded group along an
      edge of the group graph satisfies the entry invariant. */
  lemma ExtendedEntryOk(cat: LineCatalog, groups: seq<seq<StationWithLine>>, fromG: nat, current: QueueEntry,
                        c: StationWithLine, ls: seq<Station>, neighbor: Station, h: nat)
    requires EntryOk(cat, groups, fromG, current)
    requires IsStationOf(cat, c) && LineStations(cat, c.lineName) == Some(ls)
    requires Edge(cat, groups, current.group, h) && h < |groups|
    ensures EntryOk(cat, groups, fromG, ExtendedEntry(current, c, ls, neighbor, h))
  {
    var ci, ni := IndexOf(ls, c.name), IndexOf(ls, neighbor.name);
    ReachableStep(cat, groups, fromG, current.group, h);
    ExtendLineChanges(current.path, current.transfers, current.currentLine, c, ls, ci, ni);
    ExtendSteps(cat, current.path, c, ls, ci, ni);
  }

  function QueuedGroups(q: seq<QueueEntry>): set<nat>
  {
    set e | e in q :: e.group
  }

  /** The search invariant. `cur` is the group being expanded (or -1): the only
      visited group that may be neither queued nor closed. */
  ghost predicate Frontier(cat: LineCatalog, groups: seq<seq<StationWithLine>>, fromG: nat, toG: nat,
                           queue: seq<QueueEntry>, visited: set<nat>, cur: int)
  {
    fromG in visited &&
    (forall g :: g in visited ==> g < |groups|) &&
    (forall e :: e in queue ==> EntryOk(cat, groups, fromG, e) && e.group in visited) &&
    (toG in visited ==> toG in QueuedGroups(queue)) &&
    (forall g {:trigger ClosedAt(cat, groups, visited, g)} ::
       g in visited ==> g == cur || g in QueuedGroups(queue) || ClosedAt(cat, groups, visited, g))
  }

  /** Closure only grows with the visited set. */
  lemma ClosedAtMono(cat: LineCatalog, groups: seq<seq<StationWithLine>>, V: set<nat>, V': set<nat>, g: nat)
    requires g < |groups| && V <= V' && ClosedAt(cat, groups, V, g)
    ensures ClosedAt(cat, groups, V', g)
  {
    forall m | 0 <= m < |groups[g]| ensures StationClosed(cat, groups, V', g, m) {
      assert StationClosed(cat, groups, V, g, m);
    }
  }

  /** Marking a group visited and queueing a valid entry for it keeps the
      search invariant. */
  lemma FrontierPush(cat: LineCatalog, groups: seq<seq<StationWithLine>>, fromG: nat, toG: nat,
                     queue: seq<QueueEntry>, visited: set<nat>, cur: int, e: QueueEntry)
    requires Frontier(cat, groups, fromG, toG, queue, visited, cur)
    requires EntryOk(cat, groups, fromG, e)
    ensures Frontier(cat, groups, fromG, toG, queue + [e], visited + {e.group}, cur)
  {
    var q', v' := queue + [e], visited + {e.group};
    assert QueuedGroups(q') == QueuedGroups(queue) + {e.group};
    forall g | g in v' && g != cur && g !in QueuedGroups(q')
      ensures ClosedAt(cat, groups, v', g)
    {
      ClosedAtMono(cat, groups, visited, v', g);
    }
  }

  /** Taking the head off the queue (it is not the destination) leaves the
      head's group as the one being expanded. */
  lemma FrontierDequeue(cat: LineCatalog, groups: seq<seq<StationWithLine>>, fromG: nat, toG: nat,
                        queue: seq<QueueEntry>, visited: set<nat>)
    requires |queue| > 0 && queue[0].group != toG
    requires Frontier(cat, groups, fromG, toG, queue, visited, -1)
    ensures EntryOk(cat, groups, fromG, queue[0]) && queue[0].group in visited
    ensures Frontier(cat, groups, fromG, toG, queue[1..], visited, queue[0].group)
  {
    assert queue[0] in queue;
    assert QueuedGroups(queue) == {queue[0].group} + QueuedGroups(queue[1..]) by {
      assert queue == [queue[0]] + queue[1..];
    }
  }

  /** Once the expanded group is closed, the invariant no longer needs an
      exception. */
  lemma FrontierClose(cat: LineCatalog, groups: seq<seq<StationWithLine>>, fromG: nat, toG: nat,
                      queue: seq<QueueEntry>, visited: set<nat>, cur: nat)
    requires cur < |groups| && Frontier(cat, groups, fromG, toG, queue, visited, cur)
    requires ClosedAt(cat, groups, visited, cur)
    ensures Frontier(cat, groups, fromG, toG, queue, visited, -1)
  {
  }

  /** An exhausted queue means the destination group is unreachable. */
  lemma FrontierExhausted(cat: LineCatalog, groups: seq<seq<StationWithLine>>, fromG: nat, toG: nat, visited: set<nat>)
    requires Frontier(cat, groups, fromG, toG, [], visited, -1)
    ensures !Reachable(cat, groups, fromG, toG)
  {
    ClosedSetUnreachable(cat, groups, visited, fromG, toG);
  }

  /** Every member of every group is a station of its own line. */
  ghost predicate MembersOnLines(cat: LineCatalog, groups: seq<seq<StationWithLine>>)
  {
    forall g, m :: 0 <= g < |groups| && 0 <= m < |groups[g]| ==> IsStationOf(cat, groups[g][m])
  }

  // ---------------------------------------------------------------------
  // The search (routeFinder.ts:140-245)
  // ---------------------------------------------------------------------

  /** The queue and visited set after the `neighbors.forEach` callback of
      routeFinder.ts:184-236 has handled `neighbor` of `c`: when the
      neighbour's group is found and not yet visited it is marked and an entry
      for it is queued, carrying the extended path, one more transfer exactly
      when the entry's line differs from `c`'s, and `c`'s line. */
  function AfterVisit(groups: seq<seq<StationWithLine>>, current: QueueEntry, c: StationWithLine, ls: seq<Station>,
                      neighbor: Station, queue: seq<QueueEntry>, visited: set<nat>): (seq<QueueEntry>, set<nat>)
  {
    var h := FindTransferGroup(neighbor.name, groups);
    if h.Some? && h.value !in visited then (queue + [ExtendedEntry(current, c, ls, neighbor, h.value)], visited + {h.value})
    else (queue, visited)
  }

  /** The entry queued for `neighbor` of `c` when it reaches group `h`. */
  function ExtendedEntry(current: QueueEntry, c: StationWithLine, ls: seq<Station>, neighbor: Station, h: nat): QueueEntry
  {
    QueueEntry(h, ExtendedPath(current.path, c, ls, IndexOf(ls, c.name), IndexOf(ls, neighbor.name)),
               current.transfers + (if current.currentLine != c.lineName then 1 else 0), c.lineName)
  }

  /** The stations of `m`'s own line (empty when the key is missing). */
  function LineOf(cat: LineCatalog, m: StationWithLine): seq<Station>
  {
    match LineStations(cat, m.lineName)
    case None => []
    case Some(ls) => ls
  }

  /** The queue and visited set after the `neighbors.forEach` of
      routeFinder.ts:184-237 has visited each of `nbs`, in order. */
  function VisitAll(groups: seq<seq<StationWithLine>>, current: QueueEntry, c: StationWithLine, ls: seq<Station>,
                    nbs: seq<Station>, queue: seq<QueueEntry>, visited: set<nat>): (seq<QueueEntry>, set<nat>)
    decreases |nbs|
  {
    if nbs == [] then (queue, visited)
    else
      var next := AfterVisit(groups, current, c, ls, nbs[0], queue, visited);
      VisitAll(groups, current, c, ls, nbs[1..], next.0, next.1)
  }

  /** The queue and visited set after the `current.transferGroup.stations.forEach`
      of routeFinder.ts:175-238 has expanded each of `members`, in order. */
  function ExpandMembers(cat: LineCatalog, groups: seq<seq<StationWithLine>>, current: QueueEntry,
                         members: seq<StationWithLine>, queue: seq<QueueEntry>, visited: set<nat>): (seq<QueueEntry>, set<nat>)
    decreases |members|
  {
    if members == [] then (queue, visited)
    else
      var m := members[0];
      var next := VisitAll(groups, current, m, LineOf(cat, m), MemberNeighbors(cat, m), queue, visited);
      ExpandMembers(cat, groups, current, members[1..], next.0, next.1)
  }

  /** Every visited group is a group position. */
  predicate VisitedIn(visited: set<nat>, n: nat)
  {
    forall g :: g in visited ==> g < n
  }

  /** Every queued entry names a group position. */
  predicate QueueIn(queue: seq<QueueEntry>, n: nat)
  {
    forall k :: 0 <= k < |queue| ==> queue[k].group < n
  }

  /** The loop of routeFinder.ts:162-245 as a function of the queue and the
      visited set: stop with no route on an empty queue, return the head when
      it is in the destination group, and otherwise expand the head's group
      and go on with the rest of the queue. */
  function BfsFrom(cat: LineCatalog, groups: seq<seq<StationWithLine>>, toG: nat,
                   queue: seq<QueueEntry>, visited: set<nat>): RouteResult
    requires VisitedIn(visited, |groups|) && QueueIn(queue, |groups|)
    decreases |groups| - |visited|, |queue|
  {
    if queue == [] then NoRouteFound
    else if queue[0].group == toG then Route(queue[0].path, queue[0].transfers)
    else
      var next := ExpandMembers(cat, groups, queue[0], groups[queue[0].group], queue[1..], visited);
      BfsFromDecreases(cat, groups, queue, visited);
      BfsFrom(cat, groups, toG, next.0, next.1)
  }

  /** One expansion keeps the search within the group positions and either
      visits a new group or shortens the queue. */
  lemma BfsFromDecreases(cat: LineCatalog, groups: seq<seq<StationWithLine>>, queue: seq<QueueEntry>, visited: set<nat>)
    requires VisitedIn(visited, |groups|) && QueueIn(queue, |groups|) && queue != []
    ensures var next := ExpandMembers(cat, groups, queue[0], groups[queue[0].group], queue[1..], visited);
            VisitedIn(next.1, |groups|) && QueueIn(next.0, |groups|) &&
            |visited| <= |next.1| <= |groups| && (|visited| < |next.1| || |next.0| < |queue|)
  {
    var next := ExpandMembers(cat, groups, queue[0], groups[queue[0].group], queue[1..], visited);
    ExpandMembersGrowth(cat, groups, queue[0], groups[queue[0].group], queue[1..], visited);
    BoundedSetSize(next.1, |groups|);
    forall k | 0 <= k < |next.0| ensures next.0[k].group < |groups| {
      if k < |queue| - 1 {
        assert next.0[k] == queue[1..][k];
      }
    }
  }

  /** From `(queue, visited)` to `(queue', visited')`: the visited set only
      grows, by group positions; the old queue stays a prefix; one entry is
      queued per newly visited group, for a group position. */
  predicate Grows(n: nat, queue: seq<QueueEntry>, visited: set<nat>, queue': seq<QueueEntry>, visited': set<nat>)
  {
    visited <= visited' && |visited| <= |visited'| && |queue| <= |queue'| &&
    |queue'| == |queue| + |visited'| - |visited| && queue'[..|queue|] == queue &&
    (forall g :: g in visited' && g !in visited ==> g < n) &&
    (forall k :: |queue| <= k < |queue'| ==> queue'[k].group < n)
  }

  /** Growth composes. */
  lemma GrowsTrans(n: nat, q1: seq<QueueEntry>, v1: set<nat>, q2: seq<QueueEntry>, v2: set<nat>,
                   q3: seq<QueueEntry>, v3: set<nat>)
    requires Grows(n, q1, v1, q2, v2) && Grows(n, q2, v2, q3, v3)
    ensures Grows(n, q1, v1, q3, v3)
  {
    forall k | |q1| <= k < |q3| ensures q3[k].group < n {
      if k < |q2| {
        assert q3[k] == q2[k];
      }
    }
    assert q3[..|q1|] == q3[..|q2|][..|q1|];
  }

  /** Visiting one neighbour grows the state. */
  lemma AfterVisitGrowth(groups: seq<seq<StationWithLine>>, current: QueueEntry, c: StationWithLine, ls: seq<Station>,
                         nb: Station, queue: seq<QueueEntry>, visited: set<nat>)
    ensures var next := AfterVisit(groups, current, c, ls, nb, queue, visited);
            Grows(|groups|, queue, visited, next.0, next.1)
  {
    var h := FindTransferGroup(nb.name, groups);
    if h.Some? && h.value !in visited {
      assert |visited + {h.value}| == |visited| + 1;
    }
  }

  /** Visiting a list of neighbours grows the state. */
  lemma {:induction false} VisitAllGrowth(groups: seq<seq<StationWithLine>>, current: QueueEntry, c: StationWithLine,
                                          ls: seq<Station>, nbs: seq<Station>, queue: seq<QueueEntry>, visited: set<nat>)
    ensures var next := VisitAll(groups, current, c, ls, nbs, queue, visited);
            Grows(|groups|, queue, visited, next.0, next.1)
    decreases |nbs|
  {
    if nbs != [] {
      var mid := AfterVisit(groups, current, c, ls, nbs[0], queue, visited);
      AfterVisitGrowth(groups, current, c, ls, nbs[0], queue, visited);
      VisitAllGrowth(groups, current, c, ls, nbs[1..], mid.0, mid.1);
      var next := VisitAll(groups, current, c, ls, nbs[1..], mid.0, mid.1);
      GrowsTrans(|groups|, queue, visited, mid.0, mid.1, next.0, next.1);
    }
  }

  /** Expanding a list of members grows the state: the old queue stays a
      prefix and one entry is queued per newly visited group. */
  lemma {:induction false} ExpandMembersGrowth(cat: LineCatalog, groups: seq<seq<StationWithLine>>, current: QueueEntry,
                                               members: seq<StationWithLine>, queue: seq<QueueEntry>, visited: set<nat>)
    ensures var next := ExpandMembers(cat, groups, current, members, queue, visited);
            Grows(|groups|, queue, visited, next.0, next.1)
    decreases |members|
  {
    if members != [] {
      var m := members[0];
      var mid := VisitAll(groups, current, m, LineOf(cat, m), MemberNeighbors(cat, m), queue, visited);
      VisitAllGrowth(groups, current, m, LineOf(cat, m), MemberNeighbors(cat, m), queue, visited);
      ExpandMembersGrowth(cat, groups, current, members[1..], mid.0, mid.1);
      var next := ExpandMembers(cat, groups, current, members[1..], mid.0, mid.1);
      GrowsTrans(|groups|, queue, visited, mid.0, mid.1, next.0, next.1);
    }
  }

  /** Every entry queued while visiting `nbs` is for a group that was not
      visited before, reached by one of `nbs`, and carries the path, the
      transfers and the line of `ExtendedEntry` for that neighbour. */
  lemma {:induction false} VisitAllEntries(groups: seq<seq<StationWithLine>>, current: QueueEntry, c: StationWithLine,
                                           ls: seq<Station>, nbs: seq<Station>, queue: seq<QueueEntry>, visited: set<nat>)
    ensures var next := VisitAll(groups, current, c, ls, nbs, queue, visited);
            |queue| <= |next.0| && next.0[..|queue|] == queue &&
            forall k :: |queue| <= k < |next.0| ==>
              next.0[k].group !in visited &&
              exists j :: 0 <= j < |nbs| && FindTransferGroup(nbs[j].name, groups) == Some(next.0[k].group) &&
                          next.0[k] == ExtendedEntry(current, c, ls, nbs[j], next.0[k].group)
    decreases |nbs|
  {
    if nbs != [] {
      var mid := AfterVisit(groups, current, c, ls, nbs[0], queue, visited);
      AfterVisitGrowth(groups, current, c, ls, nbs[0], queue, visited);
      VisitAllGrowth(groups, current, c, ls, nbs[1..], mid.0, mid.1);
      VisitAllEntries(groups, current, c, ls, nbs[1..], mid.0, mid.1);
      var next := VisitAll(groups, current, c, ls, nbs[1..], mid.0, mid.1);
      assert next.0[..|queue|] == next.0[..|mid.0|][..|queue|];
      forall k | |queue| <= k < |next.0|
        ensures next.0[k].group !in visited &&
                exists j :: 0 <= j < |nbs| && FindTransferGroup(nbs[j].name, groups) == Some(next.0[k].group) &&
                            next.0[k] == ExtendedEntry(current, c, ls, nbs[j], next.0[k].group)
      {
        if k < |mid.0| {
          assert next.0[k] == mid.0[k];
          assert FindTransferGroup(nbs[0].name, groups) == Some(next.0[k].group);
        } else {
          var j :| 0 <= j < |nbs[1..]| && FindTransferGroup(nbs[1..][j].name, groups) == Some(next.0[k].group) &&
                   next.0[k] == ExtendedEntry(current, c, ls, nbs[1..][j], next.0[k].group);
          assert nbs[1..][j] == nbs[j + 1];
        }
      }
    }
  }

  /** Every entry queued while expanding `members` is for a group that was not
      visited before, reached by a neighbour of one of the members, and is that
      member's `ExtendedEntry` for the neighbour. */
  lemma {:induction false} ExpandMembersEntries(cat: LineCatalog, groups: seq<seq<StationWithLine>>, current: QueueEntry,
                                                members: seq<StationWithLine>, queue: seq<QueueEntry>, visited: set<nat>)
    ensures var next := ExpandMembers(cat, groups, current, members, queue, visited);
            |queue| <= |next.0| && next.0[..|queue|] == queue &&
            forall k :: |queue| <= k < |next.0| ==>
              next.0[k].group !in visited &&
              exists mi, j :: 0 <= mi < |members| && 0 <= j < |MemberNeighbors(cat, members[mi])| &&
                FindTransferGroup(MemberNeighbors(cat, members[mi])[j].name, groups) == Some(next.0[k].group) &&
                next.0[k] == ExtendedEntry(current, members[mi], LineOf(cat, members[mi]), MemberNeighbors(cat, members[mi])[j], next.0[k].group)
    decreases |members|
  {
    if members != [] {
      var m := members[0];
      var mid := VisitAll(groups, current, m, LineOf(cat, m), MemberNeighbors(cat, m), queue, visited);
      VisitAllEntries(groups, current, m, LineOf(cat, m), MemberNeighbors(cat, m), queue, visited);
      VisitAllGrowth(groups, current, m, LineOf(cat, m), MemberNeighbors(cat, m), queue, visited);
      ExpandMembersEntries(cat, groups, current, members[1..], mid.0, mid.1);
      var next := ExpandMembers(cat, groups, current, members[1..], mid.0, mid.1);
      assert next.0[..|queue|] == next.0[..|mid.0|][..|queue|];
      forall k | |queue| <= k < |next.0|
        ensures next.0[k].group !in visited &&
                exists mi, j :: 0 <= mi < |members| && 0 <= j < |MemberNeighbors(cat, members[mi])| &&
                  FindTransferGroup(MemberNeighbors(cat, members[mi])[j].name, groups) == Some(next.0[k].group) &&
                  next.0[k] == ExtendedEntry(current, members[mi], LineOf(cat, members[mi]), MemberNeighbors(cat, members[mi])[j], next.0[k].group)
      {
        if k < |mid.0| {
          assert next.0[k] == mid.0[k];
          var j :| 0 <= j < |MemberNeighbors(cat, m)| && FindTransferGroup(MemberNeighbors(cat, m)[j].name, groups) == Some(next.0[k].group) &&
                   next.0[k] == ExtendedEntry(current, m, LineOf(cat, m), MemberNeighbors(cat, m)[j], next.0[k].group);
          assert members[0] == m;
        } else {
          var mi, j :| 0 <= mi < |members[1..]| && 0 <= j < |MemberNeighbors(cat, members[1..][mi])| &&
                       FindTransferGroup(MemberNeighbors(cat, members[1..][mi])[j].name, groups) == Some(next.0[k].group) &&
                       next.0[k] == ExtendedEntry(current, members[1..][mi], LineOf(cat, members[1..][mi]), MemberNeighbors(cat, members[1..][mi])[j], next.0[k].group);
          assert members[1..][mi] == members[mi + 1];
        }
      }
    }
  }

  /** The `neighbors.forEach` callback (routeFinder.ts:184-236). */
  method VisitNeighbor(groups: seq<seq<StationWithLine>>, current: QueueEntry, currentStation: StationWithLine,
                       lineData: seq<Station>, neighbor: Station, queue: seq<QueueEntry>, visited: set<nat>)
    returns (queue': seq<QueueEntry>, visited': set<nat>)
    ensures (queue', visited') == AfterVisit(groups, current, currentStation, lineData, neighbor, queue, visited)
  {
    queue', visited' := queue, visited;
    var neighborGroup := FindTransferGroup(neighbor.name, groups);
    if neighborGroup.Some? && neighborGroup.value !in visited {
      var h := neighborGroup.value;
      visited' := visited + {h};
      var isTransfer := current.currentLine != currentStation.lineName;
      var newTransfers := current.transfers + (if isTransfer then 1 else 0);
      var currentIndex := IndexOf(lineData, currentStation.name);
      var neighborIndex := IndexOf(lineData, neighbor.name);
      var fullPath := ExtendPath(current.path, currentStation, lineData, currentIndex, neighborIndex);
      queue' := queue + [QueueEntry(h, fullPath, newTransfers, currentStation.lineName)];
    }
  }

  /** Visiting neighbour `k` of member `mi` of the group being expanded keeps
      the search invariant, leaves that neighbour's group visited, and grows
      the queue by exactly the number of newly visited groups. */
  lemma VisitKeepsFrontier(cat: LineCatalog, groups: seq<seq<StationWithLine>>, fromG: nat, toG: nat,
                           current: QueueEntry, mi: nat, c: StationWithLine, ls: seq<Station>, k: nat,
                           queue: seq<QueueEntry>, visited: set<nat>)
    requires EntryOk(cat, groups, fromG, current)
    requires mi < |groups[current.group]| && c == groups[current.group][mi]
    requires IsStationOf(cat, c) && LineStations(cat, c.lineName) == Some(ls)
    requires k < |MemberNeighbors(cat, c)|
    requires Frontier(cat, groups, fromG, toG, queue, visited, current.group)
    ensures var (queue', visited') := AfterVisit(groups, current, c, ls, MemberNeighbors(cat, c)[k], queue, visited);
            Frontier(cat, groups, fromG, toG, queue', visited', current.group) &&
            visited <= visited' && |visited'| >= |visited| && |queue'| == |queue| + |visited'| - |visited| &&
            (NeighborGroup(cat, groups, current.group, mi, k).Some? ==> NeighborGroup(cat, groups, current.group, mi, k).value in visited')
  {
    var neighbor := MemberNeighbors(cat, c)[k];
    var h := NeighborGroup(cat, groups, current.group, mi, k);
    if h.Some? && h.value !in visited {
      assert |visited + {h.value}| == |visited| + 1;
      NeighborEdge(cat, groups, current.group, mi, k);
      ExtendedEntryOk(cat, groups, fromG, current, c, ls, neighbor, h.value);
      FrontierPush(cat, groups, fromG, toG, queue, visited, current.group, ExtendedEntry(current, c, ls, neighbor, h.value));
    }
  }

  /** The `stations.forEach` callback (routeFinder.ts:175-238): look up the
      member's line and index, list its neighbours and visit each. The new
      queue and visited set are exactly those of `VisitAll`; afterwards every
      neighbour of the member resolves to a visited group (or to none). */
  method ExpandStation(cat: LineCatalog, groups: seq<seq<StationWithLine>>, fromG: nat, toG: nat,
                       current: QueueEntry, ghost mi: nat, currentStation: StationWithLine,
                       queue: seq<QueueEntry>, visited: set<nat>)
    returns (queue': seq<QueueEntry>, visited': set<nat>)
    requires EntryOk(cat, groups, fromG, current)
    requires mi < |groups[current.group]| && currentStation == groups[current.group][mi]
    requires IsStationOf(cat, currentStation)
    requires Frontier(cat, groups, fromG, toG, queue, visited, current.group)
    ensures Frontier(cat, groups, fromG, toG, queue', visited', current.group)
    ensures visited <= visited' && |visited'| >= |visited| && |queue'| == |queue| + |visited'| - |visited|
    ensures StationClosed(cat, groups, visited', current.group, mi)
    ensures (queue', visited') ==
            VisitAll(groups, current, currentStation, LineOf(cat, currentStation), MemberNeighbors(cat, currentStation), queue, visited)
  {
    var lineData := LineStations(cat, currentStation.lineName).value;
    var stationIndex := IndexOf(lineData, currentStation.name);
    var neighbors: seq<Station> := [];
    if stationIndex > 0 {
      neighbors := neighbors + [lineData[stationIndex - 1]];
    }
    if stationIndex < |lineData| - 1 {
      neighbors := neighbors + [lineData[stationIndex + 1]];
    }
    assert neighbors == MemberNeighbors(cat, currentStation);
    assert lineData == LineOf(cat, currentStation);
    ghost var final := VisitAll(groups, current, currentStation, lineData, neighbors, queue, visited);
    queue', visited' := queue, visited;
    var k := 0;
    while k < |neighbors|
      invariant 0 <= k <= |neighbors|
      invariant Frontier(cat, groups, fromG, toG, queue', visited', current.group)
      invariant visited <= visited' && |visited'| >= |visited| && |queue'| == |queue| + |visited'| - |visited|
      invariant NeighborsBelow(cat, groups, visited', current.group, mi, k)
      invariant VisitAll(groups, current, currentStation, lineData, neighbors[k..], queue', visited') == final
    {
      VisitKeepsFrontier(cat, groups, fromG, toG, current, mi, currentStation, lineData, k, queue', visited');
      ghost var v1 := visited';
      assert neighbors[k..][1..] == neighbors[k + 1..];
      queue', visited' := VisitNeighbor(groups, current, currentStation, lineData, neighbors[k], queue', visited');
      NeighborsBelowStep(cat, groups, v1, visited', current.group, mi, k);
      k := k + 1;
    }
  }

  /** The `current.transferGroup.stations.forEach` statement
      (routeFinder.ts:175-238): expand every member of the dequeued group, in
      order, giving exactly the queue and visited set of `ExpandMembers`;
      afterwards the group is closed. */
  method ExpandGroup(cat: LineCatalog, groups: seq<seq<StationWithLine>>, fromG: nat, toG: nat,
                     current: QueueEntry, queue: seq<QueueEntry>, visited: set<nat>)
    returns (queue': seq<QueueEntry>, visited': set<nat>)
    requires MembersOnLines(cat, groups)
    requires EntryOk(cat, groups, fromG, current)
    requires Frontier(cat, groups, fromG, toG, queue, visited, current.group)
    ensures Frontier(cat, groups, fromG, toG, queue', visited', -1)
    ensures visited <= visited' && |visited'| >= |visited| && |queue'| == |queue| + |visited'| - |visited|
    ensures (queue', visited') == ExpandMembers(cat, groups, current, groups[current.group], queue, visited)
    ensures ClosedAt(cat, groups, visited', current.group)
  {
    queue', visited' := queue, visited;
    var members := groups[current.group];
    ghost var final := ExpandMembers(cat, groups, current, members, queue, visited);
    var mi := 0;
    while mi < |members|
      invariant 0 <= mi <= |members|
      invariant Frontier(cat, groups, fromG, toG, queue', visited', current.group)
      invariant visited <= visited' && |visited'| >= |visited| && |queue'| == |queue| + |visited'| - |visited|
      invariant MembersBelow(cat, groups, visited', current.group, mi)
      invariant ExpandMembers(cat, groups, current, members[mi..], queue', visited') == final
    {
      ghost var v1 := visited';
      assert IsStationOf(cat, members[mi]);
      assert members[mi..][1..] == members[mi + 1..];
      queue', visited' := ExpandStation(cat, groups, fromG, toG, current, mi, members[mi], queue', visited');
      MembersBelowStep(cat, groups, v1, visited', current.group, mi);
      mi := mi + 1;
    }
    FrontierClose(cat, groups, fromG, toG, queue', visited', current.group);
  }

  /** The first queued entries: one per member of the origin group, each a
      one-step path on the member's own line with no transfers. */
  function InitialEntries(fromG: nat, members: seq<StationWithLine>): (r: seq<QueueEntry>)
    ensures |r| == |members|
    ensures forall i :: 0 <= i < |r| ==>
              r[i] == QueueEntry(fromG, [PathStep(members[i], members[i].lineName)], 0, members[i].lineName)
  {
    if members == [] then []
    else InitialEntries(fromG, members[..|members| - 1]) + [QueueEntry(fromG, [PathStep(members[|members| - 1], members[|members| - 1].lineName)], 0, members[|members| - 1].lineName)]
  }

  /** The origin group's members pushed one by one onto an empty queue
      (routeFinder.ts:150-157). */
  method SeedQueue(fromG: nat, fromMembers: seq<StationWithLine>) returns (queue: seq<QueueEntry>)
    ensures queue == InitialEntries(fromG, fromMembers)
  {
    queue := [];
    var i := 0;
    while i < |fromMembers|
      invariant 0 <= i <= |fromMembers|
      invariant queue == InitialEntries(fromG, fromMembers[..i])
    {
      assert fromMembers[..i + 1][..i] == fromMembers[..i];
      queue := queue + [QueueEntry(fromG, [PathStep(fromMembers[i], fromMembers[i].lineName)], 0, fromMembers[i].lineName)];
      i := i + 1;
    }
    assert fromMembers[..i] == fromMembers;
  }

  /** The search starts from its invariant: only the origin is visited, and
      every origin member's entry is queued. */
  lemma FrontierInit(cat: LineCatalog, groups: seq<seq<StationWithLine>>, fromG: nat, toG: nat)
    requires fromG < |groups| && |groups[fromG]| > 0 && MembersOnLines(cat, groups)
    ensures Frontier(cat, groups, fromG, toG, InitialEntries(fromG, groups[fromG]), {fromG}, -1)
  {
    var queue := InitialEntries(fromG, groups[fromG]);
    ReachableRefl(cat, groups, fromG);
    forall e | e in queue ensures EntryOk(cat, groups, fromG, e) && e.group in {fromG} {
      var j :| 0 <= j < |queue| && queue[j] == e;
      InitialEntryOk(cat, groups, fromG, j);
    }
    assert queue[0] in queue;
    assert fromG in QueuedGroups(queue);
  }

  /** The origin entry of member `j` satisfies the entry invariant. */
  lemma InitialEntryOk(cat: LineCatalog, groups: seq<seq<StationWithLine>>, fromG: nat, j: nat)
    requires fromG < |groups| && j < |groups[fromG]| && MembersOnLines(cat, groups)
    requires Reachable(cat, groups, fromG, fromG)
    ensures EntryOk(cat, groups, fromG, InitialEntries(fromG, groups[fromG])[j])
  {
    var c := groups[fromG][j];
    assert IsStationOf(cat, c);
    assert StepOk(cat, PathStep(c, c.lineName));
  }

  /** A subset of 0..n-1 has at most n elements. */
  lemma {:induction false} BoundedSetSize(V: set<nat>, n: nat)
    requires forall g :: g in V ==> g < n
    ensures |V| <= n
  {
    if n > 0 {
      var V' := V - {n - 1};
      BoundedSetSize(V', n - 1);
    } else {
      assert V == {};
    }
  }

  /** The breadth-first search of routeFinder.ts:140-245, from group `fromG`
      to group `toG`. A route is returned exactly when `toG` is reachable from
      `fromG` in the group graph; its path is made of real stations and its
      transfer count is at least the number of line changes along it. When
      both groups are the same, the first origin entry is returned at once.
      `enqueued` is a ghost counter the body increases by each push. */
  method Bfs(cat: LineCatalog, groups: seq<seq<StationWithLine>>, fromG: nat, toG: nat)
    returns (r: RouteResult, ghost enqueued: nat)
    requires fromG < |groups| && toG < |groups| && |groups[fromG]| > 0
    requires MembersOnLines(cat, groups)
    ensures r.Route? || r.NoRouteFound?
    ensures r.Route? <==> Reachable(cat, groups, fromG, toG)
    ensures r.Route? ==> |r.path| > 0 && (forall i :: 0 <= i < |r.path| ==> StepOk(cat, r.path[i])) &&
                         LineChanges(r.path) <= r.transfers
    ensures fromG == toG ==> r == Route([PathStep(groups[fromG][0], groups[fromG][0].lineName)], 0)
    ensures enqueued <= |groups[fromG]| + |groups| - 1
    ensures r == BfsFrom(cat, groups, toG, InitialEntries(fromG, groups[fromG]), {fromG})
  {
    var fromMembers := groups[fromG];
    var queue := SeedQueue(fromG, fromMembers);
    var visited: set<nat> := {fromG};
    enqueued := |queue|;
    FrontierInit(cat, groups, fromG, toG);
    while |queue| > 0
      invariant Frontier(cat, groups, fromG, toG, queue, visited, -1)
      invariant |visited| <= |groups|
      invariant enqueued == |fromMembers| + |visited| - 1
      invariant fromG == toG ==> |queue| > 0 && queue[0] == QueueEntry(fromG, [PathStep(fromMembers[0], fromMembers[0].lineName)], 0, fromMembers[0].lineName)
      invariant VisitedIn(visited, |groups|) && QueueIn(queue, |groups|)
      invariant BfsFrom(cat, groups, toG, queue, visited) == BfsFrom(cat, groups, toG, InitialEntries(fromG, fromMembers), {fromG})
      decreases |groups| - |visited|, |queue|
    {
      var current := queue[0];
      if current.group == toG {
        assert current in queue;
        return Route(current.path, current.transfers), enqueued;
      }
      FrontierDequeue(cat, groups, fromG, toG, queue, visited);
      ghost var queue0, visited0, length0 := queue, visited, |queue|;
      queue, visited := ExpandGroup(cat, groups, fromG, toG, current, queue[1..], visited);
      assert BfsFrom(cat, groups, toG, queue0, visited0) == BfsFrom(cat, groups, toG, queue, visited);
      assert forall k :: 0 <= k < |queue| ==> queue[k] in queue;
      enqueued := enqueued + (|visited| - |visited0|);
      BoundedSetSize(visited, |groups|);
      assert |visited| > |visited0| || |queue| < length0;
    }
    FrontierExhausted(cat, groups, fromG, toG, visited);
    BoundedSetSize(visited, |groups|);
    return NoRouteFound, enqueued;
  }

  // ---------------------------------------------------------------------
  // findMinTransferRoute (routeFinder.ts:94-246)
  // ---------------------------------------------------------------------

  /** Every member of every transfer group is a station of its own line, and
      no group is empty. */
  lemma TransferGroupsOnLines(cat: LineCatalog, near: Near)
    requires DistinctKeys(cat)
    ensures MembersOnLines(cat, TransferGroups(cat, near))
    ensures forall g :: 0 <= g < |TransferGroups(cat, near)| ==> |TransferGroups(cat, near)[g]| > 0
  {
    var groups := TransferGroups(cat, near);
    TransferGroupsMembers(cat, near);
    forall g, m | 0 <= g < |groups| && 0 <= m < |groups[g]|
      ensures IsStationOf(cat, groups[g][m])
    {
      assert groups[g][m] in groups[g];
      FlattenedAreStations(cat, groups[g][m]);
    }
  }

  /** The whole query at one proximity relation. Not-found is reported
      exactly when a name occurs nowhere in the catalog, with a flag per side.
      Otherwise a route is reported exactly when the two groups share a line
      or the destination group is reachable; a shared line gives the
      zero-transfer segment of the first sharing pair, and two names of the
      same transfer group (the same name in particular) give a one-step route
      with no transfer. Without a shared line the answer is that of the
      breadth-first search from the origin's entries. */
  method FindMinTransferRoute(cat: LineCatalog, fromStationName: string, toStationName: string, near: Near)
    returns (r: RouteResult)
    requires DistinctKeys(cat)
    ensures var groups := TransferGroups(cat, near);
            r.StationNotFound? <==> FindTransferGroup(fromStationName, groups).None? || FindTransferGroup(toStationName, groups).None?
    ensures r.StationNotFound? <==> !(NameInCatalog(cat, fromStationName) && NameInCatalog(cat, toStationName))
    ensures r.StationNotFound? ==> r.fromFound == NameInCatalog(cat, fromStationName) &&
                                   r.toFound == NameInCatalog(cat, toStationName)
    ensures r.Route? ==> |r.path| > 0 && (forall i :: 0 <= i < |r.path| ==> StepOk(cat, r.path[i])) &&
                         LineChanges(r.path) <= r.transfers
    ensures !r.StationNotFound? ==>
              var groups := TransferGroups(cat, near);
              var f := FindTransferGroup(fromStationName, groups).value;
              var t := FindTransferGroup(toStationName, groups).value;
              (r.Route? <==> AnyShared(cat, groups[f], groups[t]) || Reachable(cat, groups, f, t)) &&
              (AnyShared(cat, groups[f], groups[t]) ==>
                 r.Route? && r.transfers == 0 &&
                 exists a, b :: FirstShared(cat, groups[f], groups[t], a, b) && r.path == LinePath(cat, groups[f][a], groups[t][b])) &&
              (!AnyShared(cat, groups[f], groups[t]) ==> r == BfsFrom(cat, groups, t, InitialEntries(f, groups[f]), {f}))
    ensures !r.StationNotFound? &&
            FindTransferGroup(fromStationName, TransferGroups(cat, near)) == FindTransferGroup(toStationName, TransferGroups(cat, near)) ==>
              r.Route? && |r.path| == 1 && r.transfers == 0
    ensures fromStationName == toStationName && NameInCatalog(cat, fromStationName) ==>
              r.Route? && |r.path| == 1 && r.transfers == 0
  {
    var transferGroups := BuildTransferStations(cat, near);
    FindTransferGroupFound(cat, near, fromStationName);
    FindTransferGroupFound(cat, near, toStationName);
    var fromGroup := FindTransferGroup(fromStationName, transferGroups);
    var toGroup := FindTransferGroup(toStationName, transferGroups);
    if fromGroup.None? || toGroup.None? {
      return StationNotFound(fromGroup.Some?, toGroup.Some?);
    }
    var f, t := fromGroup.value, toGroup.value;
    TransferGroupsOnLines(cat, near);
    MembersOfGroup(cat, transferGroups, f);
    MembersOfGroup(cat, transferGroups, t);
    if f == t {
      SameGroupShares(cat, transferGroups[f]);
    }
    var shortcut := SameLineShortcut(cat, transferGroups[f], transferGroups[t]);
    if shortcut.Some? {
      ghost var a, b :| FirstShared(cat, transferGroups[f], transferGroups[t], a, b) &&
                        shortcut.value == LinePath(cat, transferGroups[f][a], transferGroups[t][b]);
      LinePathWellFormed(cat, transferGroups[f][a], transferGroups[t][b]);
      if f == t {
        ShortcutSameGroup(cat, transferGroups[f], a, b);
      }
      return Route(shortcut.value, 0);
    }
    ghost var enqueued;
    r, enqueued := Bfs(cat, transferGroups, f, t);
  }
}
