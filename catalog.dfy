/** The line catalog and the flattened list of station occurrences.

    The catalog is an ordered list of lines, each with the key it is stored
    under in the line table (`lines/index.ts`) and its ordered stations.
    `Flatten` lists every station of every line, in catalog order, each
    tagged with the key of its line; `GetAllStationsWithLines` builds that list
    with the two nested loops of the source. */
module Catalog {

  datatype Option<T> = None | Some(value: T)

  /** A station as a line file lists it. */
  datatype Station = Station(name: string, lat: real, lng: real)

  /** A line: the key it is stored under and its stations in line order. */
  datatype Line = Line(key: string, stations: seq<Station>)

  type LineCatalog = seq<Line>

  /** A station occurrence: the station's fields plus the key of its line. */
  datatype StationWithLine = StationWithLine(name: string, lat: real, lng: real, lineName: string)

  /** One step of a route: the station reached and the line it is reached on. */
  datatype PathStep = PathStep(station: StationWithLine, lineName: string)

  function Tag(s: Station, key: string): StationWithLine
  {
    StationWithLine(s.name, s.lat, s.lng, key)
  }

  /** The stations of one line, each tagged with the line's key. */
  function TagAll(stations: seq<Station>, key: string): (r: seq<StationWithLine>)
    ensures |r| == |stations|
    ensures forall k :: 0 <= k < |r| ==> r[k] == Tag(stations[k], key)
  {
    if stations == [] then [] else TagAll(stations[..|stations| - 1], key) + [Tag(stations[|stations| - 1], key)]
  }

  /** Every station occurrence of the catalog, line by line in catalog order. */
  function Flatten(cat: LineCatalog): seq<StationWithLine>
  {
    if cat == [] then [] else Flatten(cat[..|cat| - 1]) + TagAll(cat[|cat| - 1].stations, cat[|cat| - 1].key)
  }

  /** The number of stations the catalog lists, counted line by line. */
  function StationCount(cat: LineCatalog): nat
  {
    if cat == [] then 0 else StationCount(cat[..|cat| - 1]) + |cat[|cat| - 1].stations|
  }

  /** `o` is station `si` of line `li`, tagged with that line's key. */
  ghost predicate OccursAt(cat: LineCatalog, o: StationWithLine, li: int, si: int)
  {
    0 <= li < |cat| && 0 <= si < |cat[li].stations| && o == Tag(cat[li].stations[si], cat[li].key)
  }

  /** Some station of some line of the catalog has this name. */
  predicate NameInCatalog(cat: LineCatalog, name: string)
  {
    exists li, si :: 0 <= li < |cat| && 0 <= si < |cat[li].stations| && cat[li].stations[si].name == name
  }

  /** The flattened list has one entry per listed station, and its entries are
      exactly the catalog's stations tagged with their own line's key. */
  lemma {:induction false} FlattenContents(cat: LineCatalog)
    ensures |Flatten(cat)| == StationCount(cat)
    ensures forall o :: o in Flatten(cat) ==> exists li, si :: OccursAt(cat, o, li, si)
    ensures forall li, si :: 0 <= li < |cat| && 0 <= si < |cat[li].stations| ==>
              Tag(cat[li].stations[si], cat[li].key) in Flatten(cat)
  {
    if cat != [] {
      var init := cat[..|cat| - 1];
      var last := cat[|cat| - 1];
      FlattenContents(init);
      var tail := TagAll(last.stations, last.key);
      assert Flatten(cat) == Flatten(init) + tail;
      forall o | o in Flatten(cat)
        ensures exists li, si :: OccursAt(cat, o, li, si)
      {
        if o in Flatten(init) {
          var li, si :| OccursAt(init, o, li, si);
          assert OccursAt(cat, o, li, si);
        } else {
          var k :| 0 <= k < |tail| && tail[k] == o;
          assert OccursAt(cat, o, |cat| - 1, k);
        }
      }
      forall li, si | 0 <= li < |cat| && 0 <= si < |cat[li].stations|
        ensures Tag(cat[li].stations[si], cat[li].key) in Flatten(cat)
      {
        if li < |cat| - 1 {
          assert cat[li] == init[li];
        } else {
          assert tail[si] == Tag(cat[li].stations[si], cat[li].key);
        }
      }
    }
  }

  /** Flattening a catalog extended by one line appends that line's occurrences. */
  lemma FlattenSnoc(cat: LineCatalog, i: nat)
    requires i < |cat|
    ensures Flatten(cat[..i + 1]) == Flatten(cat[..i]) + TagAll(cat[i].stations, cat[i].key)
  {
    assert cat[..i + 1][..i] == cat[..i];
  }

  /** getAllStationsWithLines (routeFinder.ts): push every station of every
      line, tagged with the line's key. */
  method GetAllStationsWithLines(cat: LineCatalog) returns (all: seq<StationWithLine>)
    ensures all == Flatten(cat)
  {
    all := [];
    var i := 0;
    while i < |cat|
      invariant 0 <= i <= |cat|
      invariant all == Flatten(cat[..i])
    {
      var line := cat[i];
      var j := 0;
      while j < |line.stations|
        invariant 0 <= j <= |line.stations|
        invariant all == Flatten(cat[..i]) + TagAll(line.stations[..j], line.key)
      {
        assert line.stations[..j + 1][..j] == line.stations[..j];
        all := all + [Tag(line.stations[j], line.key)];
        j := j + 1;
      }
      assert line.stations[..j] == line.stations;
      FlattenSnoc(cat, i);
      i := i + 1;
    }
    assert cat[..i] == cat;
  }

  /** No name occurs twice in the list. */
  predicate NoDuplicates(s: seq<string>)
  {
    forall i, j :: 0 <= i < j < |s| ==> s[i] != s[j]
  }

  /** The keys of the line table are distinct (they are the keys of one object literal). */
  predicate DistinctKeys(cat: LineCatalog)
  {
    forall a, b :: 0 <= a < b < |cat| ==> cat[a].key != cat[b].key
  }

  /** `lines[key].stations`: the stations of the line stored under `key`, if any. */
  function LineStations(cat: LineCatalog, key: string): (r: Option<seq<Station>>)
    ensures r.None? <==> forall li :: 0 <= li < |cat| ==> cat[li].key != key
  {
    if cat == [] then None
    else if cat[0].key == key then Some(cat[0].stations)
    else
      var rest := LineStations(cat[1..], key);
      assert forall li :: 1 <= li < |cat| ==> cat[li] == cat[1..][li - 1];
      rest
  }

  /** With distinct keys, looking up a line's own key finds that line. */
  lemma {:induction false} LineStationsOfLine(cat: LineCatalog, li: nat)
    requires DistinctKeys(cat) && li < |cat|
    ensures LineStations(cat, cat[li].key) == Some(cat[li].stations)
  {
    if li > 0 {
      assert cat[1..][li - 1] == cat[li];
      assert DistinctKeys(cat[1..]);
      LineStationsOfLine(cat[1..], li - 1);
    }
  }

  /** `stations.findIndex(s => s.name === name)`: the first index holding
      `name`, or -1 when no station has that name. */
  function IndexOf(stations: seq<Station>, name: string): (r: int)
    ensures -1 <= r < |stations|
    ensures r >= 0 ==> stations[r].name == name && forall k :: 0 <= k < r ==> stations[k].name != name
    ensures r == -1 <==> forall k :: 0 <= k < |stations| ==> stations[k].name != name
  {
    if stations == [] then -1
    else if stations[0].name == name then 0
    else
      var rest := IndexOf(stations[1..], name);
      assert forall k :: 1 <= k < |stations| ==> stations[k] == stations[1..][k - 1];
      if rest == -1 then -1 else rest + 1
  }

  /** `o` is an actual station of the line it is tagged with. */
  ghost predicate IsStationOf(cat: LineCatalog, o: StationWithLine)
  {
    LineStations(cat, o.lineName).Some? &&
    exists k :: 0 <= k < |LineStations(cat, o.lineName).value| && Tag(LineStations(cat, o.lineName).value[k], o.lineName) == o
  }

  /** Every occurrence of the flattened catalog is a station of its own line,
      so looking up its line and its name always succeeds. */
  lemma FlattenedAreStations(cat: LineCatalog, o: StationWithLine)
    requires DistinctKeys(cat) && o in Flatten(cat)
    ensures IsStationOf(cat, o)
    ensures LineStations(cat, o.lineName).Some?
    ensures IndexOf(LineStations(cat, o.lineName).value, o.name) >= 0
  {
    FlattenContents(cat);
    var li, si :| OccursAt(cat, o, li, si);
    LineStationsOfLine(cat, li);
    assert Tag(cat[li].stations[si], o.lineName) == o;
  }

  /** The steps for stations `lo..hi` (inclusive) of a line, in ascending
      line order, each tagged with `key`. Empty when `lo > hi`. */
  function Segment(stations: seq<Station>, lo: int, hi: int, key: string): (r: seq<PathStep>)
    requires 0 <= lo <= hi + 1 <= |stations|
    ensures |r| == hi - lo + 1
    ensures forall k :: 0 <= k < |r| ==> r[k] == PathStep(Tag(stations[lo + k], key), key)
    decreases hi - lo + 1
  {
    if lo > hi then [] else Segment(stations, lo, hi - 1, key) + [PathStep(Tag(stations[hi], key), key)]
  }

  /** A route step is well formed: it is tagged with its station's own line,
      and that station really is on the line. */
  ghost predicate StepOk(cat: LineCatalog, s: PathStep)
  {
    s.station.lineName == s.lineName && IsStationOf(cat, s.station)
  }

  /** Every step of a segment of a catalog line is well formed. */
  lemma SegmentSteps(cat: LineCatalog, key: string, lo: int, hi: int)
    requires LineStations(cat, key).Some?
    requires 0 <= lo <= hi + 1 <= |LineStations(cat, key).value|
    ensures forall s :: s in Segment(LineStations(cat, key).value, lo, hi, key) ==> StepOk(cat, s)
  {
    var ls := LineStations(cat, key).value;
    var seg := Segment(ls, lo, hi, key);
    forall s | s in seg ensures StepOk(cat, s) {
      var k :| 0 <= k < |seg| && seg[k] == s;
      assert Tag(ls[lo + k], key) == s.station;
    }
  }

  /** The `for (i = lo; i <= hi; i++) path.push(...)` loops of routeFinder.ts:
      append stations `lo..hi` of a line, tagged with `key`. */
  method AppendSegment(path: seq<PathStep>, stations: seq<Station>, lo: int, hi: int, key: string)
    returns (r: seq<PathStep>)
    requires 0 <= lo <= hi + 1 <= |stations|
    ensures r == path + Segment(stations, lo, hi, key)
  {
    r := path;
    var i := lo;
    while i <= hi
      invariant lo <= i <= hi + 1
      invariant r == path + Segment(stations, lo, i - 1, key)
    {
      r := r + [PathStep(Tag(stations[i], key), key)];
      i := i + 1;
    }
  }
}
