/** getStationNames (routeFinder.ts): every station name of the catalog, once
    each, in sorted order.

    The source collects the names in a `Set` (which keeps first-insertion
    order) and sorts `Array.from(set)` with the default comparison, which
    orders strings lexicographically by their characters, a proper prefix
    coming first. */
module StationNames {
  import opened Catalog

  /** The default string order of `Array.prototype.sort`: lexicographic by
      character, a proper prefix before any of its extensions. */
  predicate Less(a: string, b: string)
    decreases |a|
  {
    |b| > 0 && (|a| == 0 || a[0] < b[0] || (a[0] == b[0] && Less(a[1..], b[1..])))
  }

  lemma {:induction false} LessIrreflexive(a: string)
    ensures !Less(a, a)
    decreases |a|
  {
    if |a| > 0 {
      LessIrreflexive(a[1..]);
    }
  }

  lemma {:induction false} LessTransitive(a: string, b: string, c: string)
    requires Less(a, b) && Less(b, c)
    ensures Less(a, c)
    decreases |a|
  {
    if |a| > 0 && a[0] == b[0] && b[0] == c[0] {
      LessTransitive(a[1..], b[1..], c[1..]);
    }
  }

  /** Any two different strings are ordered one way or the other. */
  lemma {:induction false} LessTotal(a: string, b: string)
    requires a != b
    ensures Less(a, b) || Less(b, a)
    decreases |a|
  {
    if |a| > 0 && |b| > 0 && a[0] == b[0] {
      assert a == [a[0]] + a[1..] && b == [b[0]] + b[1..];
      LessTotal(a[1..], b[1..]);
    }
  }

  lemma LessAsymmetric(a: string, b: string)
    requires Less(a, b)
    ensures !Less(b, a)
  {
    if Less(b, a) {
      LessTransitive(a, b, a);
      LessIrreflexive(a);
    }
  }

  /** Strictly increasing, hence also free of duplicates. */
  predicate StrictlySorted(s: seq<string>)
  {
    forall i, j :: 0 <= i < j < |s| ==> Less(s[i], s[j])
  }

  lemma SortedNoDuplicates(s: seq<string>)
    requires StrictlySorted(s)
    ensures NoDuplicates(s)
  {
    forall i, j | 0 <= i < j < |s| ensures s[i] != s[j] {
      if s[i] == s[j] {
        LessIrreflexive(s[i]);
      }
    }
  }

  /** Insert `x` before the first element that is not smaller. */
  function Insert(x: string, s: seq<string>): seq<string>
  {
    if s == [] then [x]
    else if !Less(s[0], x) then [x] + s
    else [s[0]] + Insert(x, s[1..])
  }

  /** `Array.from(set).sort()`, written as an insertion sort. */
  function Sort(s: seq<string>): seq<string>
  {
    if s == [] then [] else Insert(s[|s| - 1], Sort(s[..|s| - 1]))
  }

  /** Inserting adds exactly `x` to the elements. */
  lemma {:induction false} InsertElements(x: string, s: seq<string>)
    ensures multiset(Insert(x, s)) == multiset(s) + multiset{x}
    ensures forall y :: y in Insert(x, s) <==> y == x || y in s
  {
    if s != [] && Less(s[0], x) {
      InsertElements(x, s[1..]);
      assert s == [s[0]] + s[1..];
    }
  }

  /** Every element of `s` is above `lo`. */
  predicate AllAbove(lo: string, s: seq<string>)
  {
    forall k :: 0 <= k < |s| ==> Less(lo, s[k])
  }

  lemma ConsSorted(x: string, s: seq<string>)
    requires StrictlySorted(s) && AllAbove(x, s)
    ensures StrictlySorted([x] + s)
  {
    assert forall j :: 1 <= j < |[x] + s| ==> ([x] + s)[j] == s[j - 1];
  }

  lemma {:induction false} InsertSorted(x: string, s: seq<string>)
    requires StrictlySorted(s) && x !in s
    ensures StrictlySorted(Insert(x, s))
  {
    if s != [] {
      if !Less(s[0], x) {
        assert x != s[0];
        LessTotal(s[0], x);
        forall k | 0 <= k < |s| ensures Less(x, s[k]) {
          if k > 0 {
            LessTransitive(x, s[0], s[k]);
          }
        }
        ConsSorted(x, s);
      } else {
        var t := s[1..];
        InsertSorted(x, t);
        InsertElements(x, t);
        var r := Insert(x, t);
        forall k | 0 <= k < |r| ensures Less(s[0], r[k]) {
          assert r[k] in r;
          if r[k] != x {
            var m :| 0 <= m < |t| && t[m] == r[k];
            assert s[m + 1] == r[k];
          }
        }
        ConsSorted(s[0], r);
      }
    }
  }

  /** Sorting distinct names yields them strictly increasing, with the same
      elements. */
  lemma {:induction false} SortSpec(s: seq<string>)
    requires NoDuplicates(s)
    ensures StrictlySorted(Sort(s))
    ensures multiset(Sort(s)) == multiset(s)
  {
    if s != [] {
      var init := s[..|s| - 1];
      var x := s[|s| - 1];
      assert forall m :: 0 <= m < |init| ==> init[m] == s[m];
      assert x !in init;
      SortSpec(init);
      assert s == init + [x];
      assert x !in multiset(Sort(init));
      InsertSorted(x, Sort(init));
      InsertElements(x, Sort(init));
    }
  }

  /** In a strictly sorted list, the first element is below every other one. */
  lemma SortedHead(a: seq<string>, x: string)
    requires StrictlySorted(a) && |a| > 0 && x in a && x != a[0]
    ensures Less(a[0], x) && x in a[1..]
  {
    var i :| 0 <= i < |a| && a[i] == x;
  }

  /** A strictly sorted list is the only one with its elements: the sorted
      name list is determined by the set of names alone. */
  lemma {:induction false} SortedUnique(a: seq<string>, b: seq<string>)
    requires StrictlySorted(a) && StrictlySorted(b)
    requires forall x :: x in a <==> x in b
    ensures a == b
    decreases |a|
  {
    if a != [] {
      assert a[0] in a;
    }
    if b != [] {
      assert b[0] in b;
    }
    if a != [] && b != [] {
      if a[0] != b[0] {
        SortedHead(a, b[0]);
        SortedHead(b, a[0]);
        LessAsymmetric(a[0], b[0]);
      }
      forall x ensures x in a[1..] <==> x in b[1..] {
        if x in a[1..] {
          var i :| 0 <= i < |a[1..]| && a[1..][i] == x;
          assert Less(a[0], a[i + 1]);
          LessIrreflexive(x);
          SortedHead(b, x);
        }
        if x in b[1..] {
          var j :| 0 <= j < |b[1..]| && b[1..][j] == x;
          assert Less(b[0], b[j + 1]);
          LessIrreflexive(x);
          SortedHead(a, x);
        }
      }
      SortedUnique(a[1..], b[1..]);
      assert a == [a[0]] + a[1..] && b == [b[0]] + b[1..];
    }
  }

  /** Some station among the first `i` lines, or among the first `j` stations
      of line `i`, has this name. */
  ghost predicate SeenBefore(cat: LineCatalog, i: nat, j: nat, name: string)
  {
    (exists li, si :: 0 <= li < i && li < |cat| && 0 <= si < |cat[li].stations| && cat[li].stations[si].name == name) ||
    (i < |cat| && exists si :: 0 <= si < j && si < |cat[i].stations| && cat[i].stations[si].name == name)
  }

  /** routeFinder.ts:249-258: `stationSet.add` for every station of every
      line, then the sorted array of the set. The result is strictly sorted
      (so free of duplicates) and holds exactly the catalog's station names. */
  method GetStationNames(cat: LineCatalog) returns (names: seq<string>)
    ensures StrictlySorted(names)
    ensures NoDuplicates(names)
    ensures forall n :: n in names <==> NameInCatalog(cat, n)
  {
    var stationSet: seq<string> := [];
    var i := 0;
    while i < |cat|
      invariant 0 <= i <= |cat|
      invariant NoDuplicates(stationSet)
      invariant forall n :: n in stationSet <==> SeenBefore(cat, i, 0, n)
    {
      var line := cat[i];
      var j := 0;
      while j < |line.stations|
        invariant 0 <= j <= |line.stations|
        invariant NoDuplicates(stationSet)
        invariant forall n :: n in stationSet <==> SeenBefore(cat, i, j, n)
      {
        var name := line.stations[j].name;
        if name !in stationSet {
          stationSet := stationSet + [name];
        }
        j := j + 1;
      }
      i := i + 1;
    }
    SortSpec(stationSet);
    names := Sort(stationSet);
    forall n ensures n in names <==> NameInCatalog(cat, n) {
      assert n in names <==> n in multiset(names);
      assert n in stationSet <==> n in multiset(stationSet);
    }
    SortedNoDuplicates(names);
  }
}
