/** Transfer groups: buildTransferStations and findTransferGroup (routeFinder.ts).

    Occurrences are numbered by their position in the flattened catalog. Each
    group is opened by the smallest index not yet taken (its seed); every
    later index not yet taken joins it when it has the seed's name or is near
    the seed. Membership is tested against the seed only, so the grouping is
    not the transitive closure of "near". */
module Clustering {
  import opened Catalog

  /** `calcDistance(a, b) < distanceThreshold`, supplied by the caller. */
  type Near = (StationWithLine, StationWithLine) -> bool

  /** Occurrence `j` may join the group seeded by occurrence `seed`. */
  predicate Joins(all: seq<StationWithLine>, near: Near, seed: nat, j: nat)
    requires seed < |all| && j < |all|
  {
    all[seed].name == all[j].name || near(all[seed], all[j])
  }

  predicate Increasing(s: seq<nat>)
  {
    forall a, b :: 0 <= a < b < |s| ==> s[a] < s[b]
  }

  function Elems(s: seq<nat>): set<nat>
  {
    set x | x in s
  }

  /** The indices in `lo..hi-1` that are not in `done` and join `seed`, in order. */
  function Members(all: seq<StationWithLine>, near: Near, seed: nat, lo: nat, hi: nat, done: set<nat>): seq<nat>
    requires seed < |all| && lo <= hi <= |all|
    decreases hi - lo
  {
    if hi == lo then []
    else Members(all, near, seed, lo, hi - 1, done) + (if hi - 1 !in done && Joins(all, near, seed, hi - 1) then [hi - 1] else [])
  }

  /** `Members` lists, in increasing order, exactly the indices of its range
      that are not in `done` and join the seed. */
  lemma {:induction false} MembersSpec(all: seq<StationWithLine>, near: Near, seed: nat, lo: nat, hi: nat, done: set<nat>)
    requires seed < |all| && lo <= hi <= |all|
    ensures var r := Members(all, near, seed, lo, hi, done);
            (forall k :: k in r <==> lo <= k < hi && k !in done && Joins(all, near, seed, k)) &&
            Increasing(r) && (forall t :: 0 <= t < |r| ==> lo <= r[t] < hi)
    decreases hi - lo
  {
    if hi > lo {
      MembersSpec(all, near, seed, lo, hi - 1, done);
    }
  }

  /** The groups opened while scanning seeds from `i` on, `done` holding the
      indices already taken. */
  function GroupsFrom(all: seq<StationWithLine>, near: Near, i: nat, done: set<nat>): seq<seq<nat>>
    requires i <= |all|
    decreases |all| - i
  {
    if i == |all| then []
    else if i in done then GroupsFrom(all, near, i + 1, done)
    else
      var g := [i] + Members(all, near, i, i + 1, |all|, done);
      [g] + GroupsFrom(all, near, i + 1, done + Elems(g))
  }

  /** The index groups of the transfer clustering. */
  function IndexGroups(all: seq<StationWithLine>, near: Near): seq<seq<nat>>
  {
    GroupsFrom(all, near, 0, {})
  }

  /** Every index that occurs in some group of `gs`. */
  function Covered(gs: seq<seq<nat>>): set<nat>
  {
    if gs == [] then {} else Elems(gs[0]) + Covered(gs[1..])
  }

  lemma CoveredMembers(gs: seq<seq<nat>>)
    ensures forall x :: x in Covered(gs) <==> exists g :: 0 <= g < |gs| && x in gs[g]
  {
    if gs != [] {
      CoveredMembers(gs[1..]);
      assert forall g :: 1 <= g < |gs| ==> gs[g] == gs[1..][g - 1];
    }
  }

  function Range(lo: nat, hi: nat, done: set<nat>): set<nat>
  {
    set k | lo <= k < hi && k !in done
  }

  /** The groups scanned from `i` are non-empty and increasing, and avoid `done`
      and every index below `i`. */
  lemma {:induction false} GroupsFromShape(all: seq<StationWithLine>, near: Near, i: nat, done: set<nat>)
    requires i <= |all|
    ensures forall g :: 0 <= g < |GroupsFrom(all, near, i, done)| ==>
              GroupOk(all, i, done, GroupsFrom(all, near, i, done)[g])
    decreases |all| - i
  {
    if i < |all| && i in done {
      GroupsFromShape(all, near, i + 1, done);
    } else if i < |all| {
      var gs := GroupsFrom(all, near, i, done);
      var m := Members(all, near, i, i + 1, |all|, done);
      MembersSpec(all, near, i, i + 1, |all|, done);
      var h := [i] + m;
      var rest := GroupsFrom(all, near, i + 1, done + Elems(h));
      GroupsFromShape(all, near, i + 1, done + Elems(h));
      assert gs == [h] + rest;
      assert GroupOk(all, i, done, h);
      forall g | 0 < g < |gs|
        ensures GroupOk(all, i, done, gs[g])
      {
        assert gs[g] == rest[g - 1];
      }
    }
  }

  ghost predicate GroupOk(all: seq<StationWithLine>, i: nat, done: set<nat>, grp: seq<nat>)
  {
    |grp| > 0 && Increasing(grp) && forall x :: x in grp ==> i <= x < |all| && x !in done
  }

  lemma RangeSplit(i: nat, n: nat, done: set<nat>, taken: set<nat>)
    requires i < n && i in taken && i !in done
    requires forall x :: x in taken ==> i <= x < n && x !in done
    ensures Range(i, n, done) == taken + Range(i + 1, n, done + taken)
  {
  }

  /** The groups scanned from `i` together cover exactly the indices from `i`
      on that are not in `done`. */
  lemma {:induction false} GroupsFromCover(all: seq<StationWithLine>, near: Near, i: nat, done: set<nat>)
    requires i <= |all|
    ensures Covered(GroupsFrom(all, near, i, done)) == Range(i, |all|, done)
    decreases |all| - i
  {
    if i < |all| && i in done {
      GroupsFromCover(all, near, i + 1, done);
      assert Range(i, |all|, done) == Range(i + 1, |all|, done);
    } else if i < |all| {
      var gs := GroupsFrom(all, near, i, done);
      var m := Members(all, near, i, i + 1, |all|, done);
      MembersSpec(all, near, i, i + 1, |all|, done);
      var h := [i] + m;
      var rest := GroupsFrom(all, near, i + 1, done + Elems(h));
      GroupsFromCover(all, near, i + 1, done + Elems(h));
      assert gs == [h] + rest;
      assert gs[1..] == rest;
      assert Covered(gs) == Elems(h) + Covered(rest);
      RangeSplit(i, |all|, done, Elems(h));
    }
  }

  /** Two different groups scanned from `i` share no index. */
  lemma {:induction false} GroupsFromDisjoint(all: seq<StationWithLine>, near: Near, i: nat, done: set<nat>)
    requires i <= |all|
    ensures forall a, b, x :: 0 <= a < b < |GroupsFrom(all, near, i, done)| && x in GroupsFrom(all, near, i, done)[a] ==>
              x !in GroupsFrom(all, near, i, done)[b]
    decreases |all| - i
  {
    var gs := GroupsFrom(all, near, i, done);
    if i == |all| {
    } else if i in done {
      GroupsFromDisjoint(all, near, i + 1, done);
    } else {
      var h := [i] + Members(all, near, i, i + 1, |all|, done);
      MembersSpec(all, near, i, i + 1, |all|, done);
      var rest := GroupsFrom(all, near, i + 1, done + Elems(h));
      GroupsFromDisjoint(all, near, i + 1, done + Elems(h));
      GroupsFromShape(all, near, i + 1, done + Elems(h));
      assert gs == [h] + rest;
      forall a, b, x | 0 <= a < b < |gs| && x in gs[a]
        ensures x !in gs[b]
      {
        assert gs[b] == rest[b - 1];
        if a > 0 {
          assert gs[a] == rest[a - 1];
        } else {
          assert x in Elems(h);
        }
      }
    }
  }

  /** The indices already taken when group `g` of `gs` is opened. */
  function Taken(done: set<nat>, gs: seq<seq<nat>>, g: nat): set<nat>
    requires g <= |gs|
  {
    done + Covered(gs[..g])
  }

  /** Group `g` of `gs` starts at the smallest index from `i` on that is not
      taken, and its other members are exactly the later untaken indices that
      join that seed. */
  ghost predicate SeedRule(all: seq<StationWithLine>, near: Near, i: nat, taken: set<nat>, grp: seq<nat>)
  {
    |grp| > 0 && i <= grp[0] < |all| && grp[0] !in taken &&
    (forall k :: i <= k < grp[0] ==> k in taken) &&
    (forall k :: k in grp[1..] <==> (grp[0] < k < |all| && k !in taken && Joins(all, near, grp[0], k)))
  }

  lemma CoveredCons(h: seq<nat>, rest: seq<seq<nat>>, g: nat)
    requires 0 < g <= |rest| + 1
    ensures Covered(([h] + rest)[..g]) == Elems(h) + Covered(rest[..g - 1])
  {
    var gs := [h] + rest;
    assert gs[..g] == [h] + rest[..g - 1];
    assert gs[..g][1..] == rest[..g - 1];
  }

  lemma SeedRuleWeaken(all: seq<StationWithLine>, near: Near, i: nat, taken: set<nat>, grp: seq<nat>)
    requires SeedRule(all, near, i + 1, taken, grp) && i in taken
    ensures SeedRule(all, near, i, taken, grp)
  {
  }

  lemma SeedRuleFirst(all: seq<StationWithLine>, near: Near, i: nat, done: set<nat>)
    requires i < |all| && i !in done
    ensures SeedRule(all, near, i, done, [i] + Members(all, near, i, i + 1, |all|, done))
  {
    var h := [i] + Members(all, near, i, i + 1, |all|, done);
    MembersSpec(all, near, i, i + 1, |all|, done);
    assert h[1..] == Members(all, near, i, i + 1, |all|, done);
  }

  /** The seed rule for every group scanned from `i`. */
  lemma {:induction false} GroupsFromSeed(all: seq<StationWithLine>, near: Near, i: nat, done: set<nat>, g: nat)
    requires i <= |all|
    requires g < |GroupsFrom(all, near, i, done)|
    ensures SeedRule(all, near, i, Taken(done, GroupsFrom(all, near, i, done), g), GroupsFrom(all, near, i, done)[g])
    decreases |all| - i
  {
    var gs := GroupsFrom(all, near, i, done);
    if i in done {
      GroupsFromSeed(all, near, i + 1, done, g);
      assert gs == GroupsFrom(all, near, i + 1, done);
      assert i in Taken(done, gs, g);
      SeedRuleWeaken(all, near, i, Taken(done, gs, g), gs[g]);
    } else {
      var h := [i] + Members(all, near, i, i + 1, |all|, done);
      var rest := GroupsFrom(all, near, i + 1, done + Elems(h));
      assert gs == [h] + rest;
      if g == 0 {
        assert gs[..0] == [];
        assert Taken(done, gs, 0) == done;
        SeedRuleFirst(all, near, i, done);
      } else {
        GroupsFromSeed(all, near, i + 1, done + Elems(h), g - 1);
        assert gs[g] == rest[g - 1];
        CoveredCons(h, rest, g);
        var taken := Taken(done, gs, g);
        assert taken == Taken(done + Elems(h), rest, g - 1);
        assert i in Elems(h);
        SeedRuleWeaken(all, near, i, taken, gs[g]);
      }
    }
  }

  /** The clustering is a partition of the occurrence indices: every group is
      non-empty and increasing, and every index lies in exactly one group,
      exactly once. */
  lemma IndexGroupsPartition(all: seq<StationWithLine>, near: Near)
    ensures var gs := IndexGroups(all, near);
            forall g :: 0 <= g < |gs| ==> |gs[g]| > 0 && Increasing(gs[g]) && forall t :: 0 <= t < |gs[g]| ==> gs[g][t] < |all|
    ensures Covered(IndexGroups(all, near)) == Range(0, |all|, {})
    ensures var gs := IndexGroups(all, near);
            forall a, b, ta, tb :: 0 <= a < |gs| && 0 <= b < |gs| && 0 <= ta < |gs[a]| && 0 <= tb < |gs[b]| && gs[a][ta] == gs[b][tb] ==>
              a == b && ta == tb
  {
    var gs := IndexGroups(all, near);
    GroupsFromShape(all, near, 0, {});
    GroupsFromCover(all, near, 0, {});
    GroupsFromDisjoint(all, near, 0, {});
    forall g, t | 0 <= g < |gs| && 0 <= t < |gs[g]|
      ensures gs[g][t] < |all|
    {
      assert gs[g][t] in gs[g];
    }
    forall a, b, ta, tb | 0 <= a < |gs| && 0 <= b < |gs| && 0 <= ta < |gs[a]| && 0 <= tb < |gs[b]| && gs[a][ta] == gs[b][tb]
      ensures a == b && ta == tb
    {
      assert gs[a][ta] in gs[a] && gs[b][tb] in gs[b];
    }
  }

  /** The seed rule: group `g` starts at the smallest index no earlier group
      took, and an index joins it exactly when it comes later, no earlier group
      took it, and it has the seed's name or is near the seed. */
  lemma IndexGroupsSeedRule(all: seq<StationWithLine>, near: Near, g: nat)
    requires g < |IndexGroups(all, near)|
    ensures |IndexGroups(all, near)[g]| > 0
    ensures var gs := IndexGroups(all, near);
            var seed := gs[g][0];
            seed !in Covered(gs[..g]) &&
            (forall k :: 0 <= k < seed ==> k in Covered(gs[..g])) &&
            (forall k :: k in gs[g][1..] <==>
                         (seed < k < |all| && k !in Covered(gs[..g]) &&
                          (all[seed].name == all[k].name || near(all[seed], all[k]))))
  {
    GroupsFromSeed(all, near, 0, {}, g);
    assert Taken({}, IndexGroups(all, near), g) == Covered(IndexGroups(all, near)[..g]);
  }

  predicate IndicesBelow(gs: seq<seq<nat>>, n: nat)
  {
    forall g, t :: 0 <= g < |gs| && 0 <= t < |gs[g]| ==> gs[g][t] < n
  }

  function Pick(all: seq<StationWithLine>, g: seq<nat>): seq<StationWithLine>
    requires forall t :: 0 <= t < |g| ==> g[t] < |all|
  {
    seq(|g|, t requires 0 <= t < |g| => all[g[t]])
  }

  /** The station groups for index groups `gs`. */
  function Materialize(all: seq<StationWithLine>, gs: seq<seq<nat>>): seq<seq<StationWithLine>>
    requires IndicesBelow(gs, |all|)
  {
    seq(|gs|, g requires 0 <= g < |gs| => Pick(all, gs[g]))
  }

  lemma MaterializeSnoc(all: seq<StationWithLine>, gs: seq<seq<nat>>, g: seq<nat>)
    requires IndicesBelow(gs, |all|)
    requires forall t :: 0 <= t < |g| ==> g[t] < |all|
    ensures IndicesBelow(gs + [g], |all|)
    ensures Materialize(all, gs + [g]) == Materialize(all, gs) + [Pick(all, g)]
  {
    assert forall h :: 0 <= h < |gs| ==> (gs + [g])[h] == gs[h];
  }

  /** The transfer groups of a catalog at a given proximity relation. */
  function TransferGroups(cat: LineCatalog, near: Near): seq<seq<StationWithLine>>
  {
    IndexGroupsPartition(Flatten(cat), near);
    Materialize(Flatten(cat), IndexGroups(Flatten(cat), near))
  }

  lemma ElemsSnoc(s: seq<nat>, x: nat)
    ensures Elems(s + [x]) == Elems(s) + {x}
  {
  }

  lemma PickSnoc(all: seq<StationWithLine>, g: seq<nat>, x: nat)
    requires forall t :: 0 <= t < |g| ==> g[t] < |all|
    requires x < |all|
    ensures Pick(all, g + [x]) == Pick(all, g) + [all[x]]
  {
  }

  lemma MembersSnoc(all: seq<StationWithLine>, near: Near, seed: nat, lo: nat, j: nat, done: set<nat>)
    requires seed < |all| && lo <= j < |all|
    ensures Members(all, near, seed, lo, j + 1, done) ==
            Members(all, near, seed, lo, j, done) + (if j !in done && Joins(all, near, seed, j) then [j] else [])
  {
  }

  /** The inner scan of buildTransferStations (routeFinder.ts:59-73): open the
      group seeded by `i` and add every later unprocessed index that has the
      seed's name or is near the seed. */
  method OpenGroup(all: seq<StationWithLine>, near: Near, i: nat, processed: set<nat>)
    returns (group: seq<StationWithLine>, processed': set<nat>)
    requires i < |all| && i !in processed
    ensures var g := [i] + Members(all, near, i, i + 1, |all|, processed);
            (forall t :: 0 <= t < |g| ==> g[t] < |all|) && group == Pick(all, g) && processed' == processed + Elems(g)
  {
    group := [all[i]];
    ghost var gidx: seq<nat> := [i];
    processed' := processed + {i};
    var j: nat := i + 1;
    while j < |all|
      invariant i + 1 <= j <= |all|
      invariant gidx == [i] + Members(all, near, i, i + 1, j, processed)
      invariant processed' == processed + Elems(gidx)
      invariant forall t :: 0 <= t < |gidx| ==> gidx[t] < j
      invariant group == Pick(all, gidx)
    {
      OpenStep(all, near, i, j, processed, gidx);
      if j !in processed' {
        var isSameName := all[i].name == all[j].name;
        var isNearby := near(all[i], all[j]);
        if isSameName || isNearby {
          PickSnoc(all, gidx, j);
          ElemsSnoc(gidx, j);
          group := group + [all[j]];
          gidx := gidx + [j];
          processed' := processed' + {j};
        }
      }
      j := j + 1;
    }
  }

  /** One step of the inner scan: index `j` is taken exactly when it was
      taken before the scan, and the members up to `j + 1` extend those up to `j`. */
  lemma OpenStep(all: seq<StationWithLine>, near: Near, i: nat, j: nat, processed: set<nat>, gidx: seq<nat>)
    requires i < j < |all|
    requires gidx == [i] + Members(all, near, i, i + 1, j, processed)
    ensures j in processed + Elems(gidx) <==> j in processed
    ensures [i] + Members(all, near, i, i + 1, j + 1, processed) ==
            gidx + (if j !in processed && Joins(all, near, i, j) then [j] else [])
  {
    var m := Members(all, near, i, i + 1, j, processed);
    MembersSpec(all, near, i, i + 1, j, processed);
    assert j !in m;
    assert j !in Elems(gidx);
    MembersSnoc(all, near, i, i + 1, j, processed);
    var x := if j !in processed && Joins(all, near, i, j) then [j] else [];
    assert [i] + (m + x) == ([i] + m) + x;
  }

  /** Opening the group seeded by `i` moves it from the groups still to be
      scanned to the groups already built. */
  lemma BuildStep(all: seq<StationWithLine>, near: Near, full: seq<seq<nat>>, idx: seq<seq<nat>>, i: nat,
                  processed: set<nat>, gidx: seq<nat>, processed': set<nat>)
    requires i < |all| && i !in processed
    requires full == idx + GroupsFrom(all, near, i, processed) && IndicesBelow(idx, |all|)
    requires gidx == [i] + Members(all, near, i, i + 1, |all|, processed)
    requires processed' == processed + Elems(gidx)
    requires forall t :: 0 <= t < |gidx| ==> gidx[t] < |all|
    ensures full == (idx + [gidx]) + GroupsFrom(all, near, i + 1, processed')
    ensures IndicesBelow(idx + [gidx], |all|)
    ensures Materialize(all, idx + [gidx]) == Materialize(all, idx) + [Pick(all, gidx)]
  {
    assert GroupsFrom(all, near, i, processed) == [gidx] + GroupsFrom(all, near, i + 1, processed');
    MaterializeSnoc(all, idx, gidx);
  }

  /** buildTransferStations (routeFinder.ts:51-81): the seed loop over all
      occurrences, skipping the processed ones, keeping every non-empty group. */
  method BuildTransferStations(cat: LineCatalog, near: Near) returns (groups: seq<seq<StationWithLine>>)
    ensures groups == TransferGroups(cat, near)
  {
    var all := GetAllStationsWithLines(cat);
    ghost var full := IndexGroups(all, near);
    groups := [];
    ghost var idx: seq<seq<nat>> := [];
    var processed: set<nat> := {};
    var i := 0;
    while i < |all|
      invariant 0 <= i <= |all|
      invariant full == idx + GroupsFrom(all, near, i, processed)
      invariant IndicesBelow(idx, |all|)
      invariant groups == Materialize(all, idx)
    {
      if i !in processed {
        var group, processed' := OpenGroup(all, near, i, processed);
        ghost var gidx := [i] + Members(all, near, i, i + 1, |all|, processed);
        BuildStep(all, near, full, idx, i, processed, gidx, processed');
        processed := processed';
        if |group| > 0 {
          groups := groups + [group];
          idx := idx + [gidx];
        }
      }
      i := i + 1;
    }
    assert GroupsFrom(all, near, i, processed) == [];
  }

  /** `group.stations.some(station => station.name === name)`. */
  predicate HasName(group: seq<StationWithLine>, name: string)
  {
    exists k :: 0 <= k < |group| && group[k].name == name
  }

  /** findTransferGroup (routeFinder.ts:84-88): the position of the first group
      having a member with that name, or None exactly when no group has one. */
  function FindTransferGroup(name: string, groups: seq<seq<StationWithLine>>): (r: Option<nat>)
    ensures r.Some? ==> r.value < |groups| && HasName(groups[r.value], name) &&
                        forall g :: 0 <= g < r.value ==> !HasName(groups[g], name)
    ensures r.None? <==> forall g :: 0 <= g < |groups| ==> !HasName(groups[g], name)
  {
    FindFrom(name, groups, 0)
  }

  function FindFrom(name: string, groups: seq<seq<StationWithLine>>, g: nat): (r: Option<nat>)
    requires g <= |groups|
    ensures r.Some? ==> g <= r.value < |groups| && HasName(groups[r.value], name) &&
                        forall h :: g <= h < r.value ==> !HasName(groups[h], name)
    ensures r.None? <==> forall h :: g <= h < |groups| ==> !HasName(groups[h], name)
    decreases |groups| - g
  {
    if g == |groups| then None
    else if HasName(groups[g], name) then Some(g)
    else FindFrom(name, groups, g + 1)
  }

  /** The members of the transfer groups are exactly the catalog's occurrences,
      and no group is empty. */
  lemma TransferGroupsMembers(cat: LineCatalog, near: Near)
    ensures var groups := TransferGroups(cat, near);
            forall g :: 0 <= g < |groups| ==> |groups[g]| > 0
    ensures var groups := TransferGroups(cat, near);
            forall g, m :: 0 <= g < |groups| && m in groups[g] ==> m in Flatten(cat)
    ensures var groups := TransferGroups(cat, near);
            forall o :: o in Flatten(cat) ==> exists g :: 0 <= g < |groups| && o in groups[g]
  {
    var all := Flatten(cat);
    var gs := IndexGroups(all, near);
    var groups := TransferGroups(cat, near);
    IndexGroupsPartition(all, near);
    CoveredMembers(gs);
    forall g, m | 0 <= g < |groups| && m in groups[g]
      ensures m in all
    {
      var t :| 0 <= t < |groups[g]| && groups[g][t] == m;
      assert m == all[gs[g][t]];
    }
    forall o | o in all
      ensures exists g :: 0 <= g < |groups| && o in groups[g]
    {
      var k :| 0 <= k < |all| && all[k] == o;
      assert k in Covered(gs);
      var g :| 0 <= g < |gs| && k in gs[g];
      var t :| 0 <= t < |gs[g]| && gs[g][t] == k;
      assert groups[g][t] == o;
    }
  }

  /** A name resolves to a transfer group exactly when some station of the
      catalog has that name. */
  lemma FindTransferGroupFound(cat: LineCatalog, near: Near, name: string)
    ensures FindTransferGroup(name, TransferGroups(cat, near)).Some? <==> NameInCatalog(cat, name)
  {
    if FindTransferGroup(name, TransferGroups(cat, near)).Some? {
      FoundIsInCatalog(cat, near, name);
    }
    if NameInCatalog(cat, name) {
      InCatalogIsFound(cat, near, name);
    }
  }

  lemma FoundIsInCatalog(cat: LineCatalog, near: Near, name: string)
    requires FindTransferGroup(name, TransferGroups(cat, near)).Some?
    ensures NameInCatalog(cat, name)
  {
    var groups := TransferGroups(cat, near);
    TransferGroupsMembers(cat, near);
    FlattenContents(cat);
    var g := FindTransferGroup(name, groups).value;
    var k :| 0 <= k < |groups[g]| && groups[g][k].name == name;
    var o := groups[g][k];
    assert o in groups[g];
    assert o in Flatten(cat);
    var li, si :| OccursAt(cat, o, li, si);
    assert cat[li].stations[si].name == name;
  }

  lemma InCatalogIsFound(cat: LineCatalog, near: Near, name: string)
    requires NameInCatalog(cat, name)
    ensures FindTransferGroup(name, TransferGroups(cat, near)).Some?
  {
    var groups := TransferGroups(cat, near);
    TransferGroupsMembers(cat, near);
    FlattenContents(cat);
    var li, si :| 0 <= li < |cat| && 0 <= si < |cat[li].stations| && cat[li].stations[si].name == name;
    var o := Tag(cat[li].stations[si], cat[li].key);
    assert o in Flatten(cat);
    var g :| 0 <= g < |groups| && o in groups[g];
    var k :| 0 <= k < |groups[g]| && groups[g][k] == o;
    assert HasName(groups[g], name);
  }
}
