/**
 * Station assembly: every station of station.json gets the ids of its Delaunay neighbours and a
 * boundary region that is always a Polygon.
 */
module Stations {
  import opened Js
  import opened Console
  import opened Geometry
  import opened CodeMap

  /** The schema fields the build never touches (names, reading, coordinates, lines, address, ...). */
  type StationFields(==, !new)

  /**
   * A station object as JSON.parse yields it from station.json. The build writes `delaunay` and
   * `voronoi` into these very objects, so they are shared by the code map and the output list.
   */
  class StationRecord {
    const code: int
    const id: int
    const fields: StationFields
    var voronoi: Feature
    var delaunay: Option<seq<int>>

    constructor (code: int, id: int, fields: StationFields, voronoi: Feature)
      ensures this.code == code && this.id == id && this.fields == fields
      ensures this.voronoi == voronoi && this.delaunay == None
    {
      this.code := code;
      this.id := id;
      this.fields := fields;
      this.voronoi := voronoi;
      this.delaunay := None;
    }
  }

  /** An entry of delaunay.json: a station code and the codes of its neighbours (its name is never read). */
  datatype DelaunayRecord = DelaunayRecord(code: int, next: seq<int>)

  /** `rawStation`: station records keyed by code. */
  type StationMap = Entries<StationRecord>

  /** Each key is the code of the record stored under it, and no key repeats. */
  predicate IsCodeMap(m: StationMap) {
    && NoDuplicates(Keys(m))
    && forall i :: 0 <= i < |m| ==> m[i].0 == m[i].1.code
  }

  /** `[x.code, x]` for every record. */
  function CodePairs(records: seq<StationRecord>): seq<(int, StationRecord)> {
    seq(|records|, i requires 0 <= i < |records| => (records[i].code, records[i]))
  }

  /**
   * `new Map(records.map(x => [x.code, x]))`: one entry per distinct code, in order of first
   * occurrence, holding the last record with that code.
   */
  function StationMapOf(records: seq<StationRecord>): (m: StationMap)
    ensures IsCodeMap(m)
    ensures Keys(m) == FirstOccurrences(Keys(CodePairs(records)))
    ensures forall c :: Get(m, c) == LastValue(CodePairs(records), c)
  {
    var pairs := CodePairs(records);
    var m := FromEntries(pairs);
    FromEntriesKeys(pairs);
    forall c ensures Get(m, c) == LastValue(pairs, c) {
      FromEntriesGet(pairs, c);
    }
    m
  }

  /** `rawStation.get(code)?.id` */
  function IdOf(m: StationMap, code: int): Option<int> {
    match Get(m, code)
    case None => None
    case Some(s) => Some(s.id)
  }

  /** `next.map(i => rawStation.get(i)?.id)` */
  function Resolve(m: StationMap, codes: seq<int>): seq<Option<int>> {
    seq(|codes|, i requires 0 <= i < |codes| => IdOf(m, codes[i]))
  }

  /** `.filter(i => i !== undefined)` */
  function Present(xs: seq<Option<int>>): seq<int> {
    if xs == [] then []
    else Present(xs[..|xs| - 1]) + (if xs[|xs| - 1].Some? then [xs[|xs| - 1].value] else [])
  }

  /** The neighbour ids of a Delaunay record: its `next` codes resolved, unresolved ones dropped. */
  function NeighbourIds(m: StationMap, next: seq<int>): seq<int> {
    Present(Resolve(m, next))
  }

  /** `delaunayPoints.find(x => x.code === code)`: the first record with that code. */
  function FindDelaunay(points: seq<DelaunayRecord>, code: int): (r: Option<DelaunayRecord>)
    ensures r.None? <==> forall i :: 0 <= i < |points| ==> points[i].code != code
    ensures r.Some? ==> exists i :: 0 <= i < |points| && points[i] == r.value && FirstWithCode(points, code, i)
  {
    if points == [] then None
    else if points[0].code == code then
      assert FirstWithCode(points, code, 0);
      Some(points[0])
    else
      var r := FindDelaunay(points[1..], code);
      if r.Some? then
        var i :| 0 <= i < |points[1..]| && points[1..][i] == r.value && FirstWithCode(points[1..], code, i);
        assert FirstWithCode(points, code, i + 1);
        r
      else
        assert forall i :: 1 <= i < |points| ==> points[i] == points[1..][i - 1];
        r
  }

  /** `points[i]` is the first record whose code is `code`. */
  predicate FirstWithCode(points: seq<DelaunayRecord>, code: int, i: int) {
    0 <= i < |points| && points[i].code == code && forall j :: 0 <= j < i ==> points[j].code != code
  }

  /** The `delaunay` list the build stores for the station with code `code`. */
  function DelaunayOf(m: StationMap, points: seq<DelaunayRecord>, code: int): (r: seq<int>)
    ensures FindDelaunay(points, code).None? ==> r == []
    ensures FindDelaunay(points, code).Some? ==> r == NeighbourIds(m, FindDelaunay(points, code).value.next)
    ensures FindDelaunay(points, code).Some? ==> |r| <= |FindDelaunay(points, code).value.next|
    ensures forall x :: x in r ==> exists i :: 0 <= i < |m| && m[i].1.id == x
  {
    match FindDelaunay(points, code)
    case None => []
    case Some(d) =>
      NeighbourIdsBound(m, d.next);
      NeighbourIdsMembers(m, d.next);
      var r := NeighbourIds(m, d.next);
      assert forall x :: x in r ==> exists i :: 0 <= i < |m| && m[i].1.id == x by {
        forall x | x in r ensures exists i :: 0 <= i < |m| && m[i].1.id == x {
          var k :| 0 <= k < |d.next| && IdOf(m, d.next[k]) == Some(x);
          var s := Get(m, d.next[k]).value;
          var i :| 0 <= i < |m| && m[i].0 == d.next[k] && m[i].1 == s;
        }
      }
      r
  }

  lemma {:induction false} PresentAppend(a: seq<Option<int>>, b: seq<Option<int>>)
    ensures Present(a + b) == Present(a) + Present(b)
  {
    if b != [] {
      PresentAppend(a, b[..|b| - 1]);
      assert (a + b)[..|a + b| - 1] == a + b[..|b| - 1];
    } else {
      assert a + b == a;
    }
  }

  /** Neighbour resolution keeps the original relative order: it distributes over concatenation. */
  lemma {:induction false} NeighbourIdsAppend(m: StationMap, a: seq<int>, b: seq<int>)
    ensures NeighbourIds(m, a + b) == NeighbourIds(m, a) + NeighbourIds(m, b)
  {
    assert Resolve(m, a + b) == Resolve(m, a) + Resolve(m, b);
    PresentAppend(Resolve(m, a), Resolve(m, b));
  }

  /** A single code contributes its station's id, or nothing when it does not resolve. */
  lemma NeighbourIdsSingle(m: StationMap, c: int)
    ensures NeighbourIds(m, [c]) == if IdOf(m, c).Some? then [IdOf(m, c).value] else []
  {
    var xs := Resolve(m, [c]);
    assert xs == [IdOf(m, c)];
    assert xs[..|xs| - 1] == [];
    assert Present(xs) == Present([]) + (if xs[0].Some? then [xs[0].value] else []);
  }

  /**
   * At most one id per `next` code; exactly one each, in the same positions, when every code
   * resolves.
   */
  lemma {:induction false} NeighbourIdsBound(m: StationMap, next: seq<int>)
    ensures |NeighbourIds(m, next)| <= |next|
    ensures (forall k :: 0 <= k < |next| ==> IdOf(m, next[k]).Some?) <==> |NeighbourIds(m, next)| == |next|
    ensures (forall k :: 0 <= k < |next| ==> IdOf(m, next[k]).Some?) ==>
              forall k :: 0 <= k < |next| ==> NeighbourIds(m, next)[k] == IdOf(m, next[k]).value
  {
    if next != [] {
      var init := next[..|next| - 1];
      NeighbourIdsBound(m, init);
      assert Resolve(m, next)[..|next| - 1] == Resolve(m, init);
      if IdOf(m, next[|next| - 1]).None? {
        assert |NeighbourIds(m, next)| < |next|;
      }
      if !(forall k :: 0 <= k < |next| ==> IdOf(m, next[k]).Some?) {
        var k :| 0 <= k < |next| && IdOf(m, next[k]).None?;
        if k < |next| - 1 {
          assert init[k] == next[k];
        }
      }
    }
  }

  /** An id is a neighbour exactly when some `next` code resolves to it. */
  lemma {:induction false} NeighbourIdsMembers(m: StationMap, next: seq<int>)
    ensures forall x :: x in NeighbourIds(m, next) <==> exists k :: 0 <= k < |next| && IdOf(m, next[k]) == Some(x)
  {
    if next != [] {
      var init := next[..|next| - 1];
      NeighbourIdsMembers(m, init);
      assert Resolve(m, next)[..|next| - 1] == Resolve(m, init);
      forall x ensures x in NeighbourIds(m, next) <==> exists k :: 0 <= k < |next| && IdOf(m, next[k]) == Some(x) {
        if exists k :: 0 <= k < |next| && IdOf(m, next[k]) == Some(x) {
          var k :| 0 <= k < |next| && IdOf(m, next[k]) == Some(x);
          if k < |next| - 1 {
            assert init[k] == next[k];
          }
        }
        if x in NeighbourIds(m, init) {
          var k :| 0 <= k < |init| && IdOf(m, init[k]) == Some(x);
          assert next[k] == init[k];
        }
      }
    }
  }

  /** One warning per `next` code that yields no truthy id (build.ts line 17). */
  function NeighbourWarnings(m: StationMap, next: seq<int>, code: int): seq<Message> {
    if next == [] then []
    else
      var last := next[|next| - 1];
      NeighbourWarnings(m, next[..|next| - 1], code)
        + (if Missing(IdOf(m, last)) then [DelaunayStationNotFound(last, code)] else [])
  }

  /** Every neighbour code that is dropped is reported, and only codes that yield no truthy id are. */
  lemma {:induction false} NeighbourWarningsComplete(m: StationMap, next: seq<int>, code: int)
    ensures forall c :: DelaunayStationNotFound(c, code) in NeighbourWarnings(m, next, code)
                        <==> c in next && Missing(IdOf(m, c))
    ensures forall w :: w in NeighbourWarnings(m, next, code) ==> w.DelaunayStationNotFound? && w.code == code
  {
    if next != [] {
      var init := next[..|next| - 1];
      NeighbourWarningsComplete(m, init, code);
      assert next == init + [next[|next| - 1]];
    }
  }

  /** What the loop body writes to the console for one station. */
  function StationMessages(m: StationMap, points: seq<DelaunayRecord>, s: StationRecord, voronoi: Feature): seq<Message> {
    (match FindDelaunay(points, s.code)
     case None => [DelaunayNotFound(s.code)]
     case Some(d) => NeighbourWarnings(m, d.next, s.code))
    + (if voronoi.geometry.LineString? then [VoronoiConverted(s.id)] else [])
  }

  /** The messages of the first `n` rounds of the station loop, given each station's boundary before the loop. */
  function StationsLog(m: StationMap, points: seq<DelaunayRecord>, stations: seq<StationRecord>, voronois: seq<Feature>, n: nat): seq<Message>
    requires n <= |stations| == |voronois|
  {
    if n == 0 then []
    else StationsLog(m, points, stations, voronois, n - 1) + StationMessages(m, points, stations[n - 1], voronois[n - 1])
  }

  /** A station without a Delaunay record is reported; one with a record is not. */
  lemma StationMessagesDelaunay(m: StationMap, points: seq<DelaunayRecord>, s: StationRecord, voronoi: Feature)
    ensures DelaunayNotFound(s.code) in StationMessages(m, points, s, voronoi)
            <==> forall i :: 0 <= i < |points| ==> points[i].code != s.code
  {
    match FindDelaunay(points, s.code)
    case None =>
    case Some(d) =>
      NeighbourWarningsComplete(m, d.next, s.code);
      assert DelaunayNotFound(s.code) !in NeighbourWarnings(m, d.next, s.code);
  }

  /** Distinct codes are held by distinct objects, so the records of a code map are pairwise distinct. */
  lemma DistinctRecords(m: StationMap)
    requires IsCodeMap(m)
    ensures forall i, j :: 0 <= i < j < |m| ==> Values(m)[i] != Values(m)[j]
  {
    forall i, j | 0 <= i < j < |m| ensures Values(m)[i] != Values(m)[j] {
      assert Keys(m)[i] != Keys(m)[j];
    }
  }

  /**
   * What the loop leaves in a record whose boundary was `before`: the resolved neighbour ids and
   * the normalised boundary. No other field of a record can change.
   */
  ghost predicate Assembled(m: StationMap, points: seq<DelaunayRecord>, rewind: Geometry -> Geometry, s: StationRecord, before: Feature)
    reads s
  {
    && s.delaunay == Some(DelaunayOf(m, points, s.code))
    && WellFormed(before)
    && s.voronoi == NormalizeVoronoi(before, rewind)
  }

  /** The body of the station loop for one record `item` (build.ts lines 10-38). */
  method AssembleStation(rawStation: StationMap, delaunayPoints: seq<DelaunayRecord>, item: StationRecord, rewind: Geometry -> Geometry)
    returns (log: seq<Message>)
    requires WellFormed(item.voronoi)
    modifies item
    ensures Assembled(rawStation, delaunayPoints, rewind, item, old(item.voronoi))
    ensures log == StationMessages(rawStation, delaunayPoints, item, old(item.voronoi))
  {
    log := [];
    var delaunay := FindDelaunay(delaunayPoints, item.code);
    if delaunay.None? {
      log := log + [DelaunayNotFound(item.code)];
    }

    var x := item;
    if delaunay.None? {
      x.delaunay := Some([]);
    } else {
      x.delaunay := Some(NeighbourIds(rawStation, delaunay.value.next));
      log := log + NeighbourWarnings(rawStation, delaunay.value.next, item.code);
    }

    var voronoi := x.voronoi;
    if voronoi.geometry.LineString? {
      var firstPosition := voronoi.geometry.coordinates[0];
      var polygon := Polygon([voronoi.geometry.coordinates + [firstPosition]]);
      x.voronoi := Feature(rewind(polygon), voronoi.properties);
      log := log + [VoronoiConverted(item.id)];
    }
  }

  /**
   * The station loop (build.ts lines 9-41). It writes `delaunay` and `voronoi` into the records
   * held by `rawStation` and returns those same records in the map's order. `before` names the
   * boundary each record held when the loop started.
   */
  method AssembleStations(rawStation: StationMap, delaunayPoints: seq<DelaunayRecord>, rewind: Geometry -> Geometry,
                          ghost before: seq<Feature>)
    returns (station: seq<StationRecord>, log: seq<Message>)
    requires IsCodeMap(rawStation)
    requires |before| == |rawStation|
    requires forall i :: 0 <= i < |rawStation| ==> rawStation[i].1.voronoi == before[i] && WellFormed(before[i])
    modifies set r | r in Values(rawStation)
    ensures station == Values(rawStation)
    ensures forall i :: 0 <= i < |station| ==> Assembled(rawStation, delaunayPoints, rewind, station[i], before[i])
    ensures log == StationsLog(rawStation, delaunayPoints, station, before, |station|)
  {
    var values := Values(rawStation);
    var n := |values|;
    DistinctRecords(rawStation);
    station, log := [], [];
    for i := 0 to n
      invariant station == values[..i]
      invariant forall j :: 0 <= j < i ==> Assembled(rawStation, delaunayPoints, rewind, values[j], before[j])
      invariant forall j :: i <= j < n ==> values[j].voronoi == before[j]
      invariant log == StationsLog(rawStation, delaunayPoints, values, before, i)
    {
      var item := values[i];
      var messages := AssembleStation(rawStation, delaunayPoints, item, rewind);
      log := log + messages;
      station := station + [item];
    }
    assert values[..n] == values;
  }
}
