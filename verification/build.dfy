/**
 * The build script as a whole (build.ts): read the dataset, assemble stations, lines and the tree,
 * and produce the document that is encoded.
 */
module Build {
  import opened Js
  import opened Console
  import opened Geometry
  import opened CodeMap
  import opened Stations
  import opened Lines
  import opened Tree
  import Utils

  /** What reading each file of the dataset yields. */
  datatype Dataset = Dataset(
    delaunay: Utils.FileContent<seq<DelaunayRecord>>,
    station: Utils.FileContent<seq<StationRecord>>,
    line: Utils.FileContent<seq<LineSummary>>,
    lineFiles: LineFiles,
    tree: Utils.FileContent<TreeSegment>)

  /** The document handed to `encodeMessagePack`. */
  datatype Document = Document(station: seq<StationRecord>, line: seq<Line>, tree: TreeOut)

  /** `readJson(file, schema, [])`: the parsed list, or `[]`. */
  function ListOrEmpty<T>(file: Utils.FileContent<seq<T>>): (r: seq<T>)
    ensures file.Parsed? ==> r == file.value
    ensures !file.Parsed? ==> r == []
  {
    Utils.ReadJsonFallback(file, Defined([]));
    Utils.ReadJson(file, Defined([])).value
  }

  /** The station records JSON.parse created from station.json. */
  function Records(data: Dataset): seq<StationRecord> {
    ListOrEmpty(data.station)
  }

  /** `rawStation` */
  function RawStation(data: Dataset): (m: StationMap)
    ensures IsCodeMap(m)
    ensures forall r :: r in Values(m) ==> r in Records(data)
  {
    var records := Records(data);
    var m := StationMapOf(records);
    assert forall r :: r in Values(m) ==> r in records by {
      forall r | r in Values(m) ensures r in records {
        var i :| 0 <= i < |m| && Values(m)[i] == r;
        var j :| 0 <= j < |CodePairs(records)| && m[i] == CodePairs(records)[j];
        assert r == records[j];
      }
    }
    m
  }

  /** `rawTree`: tree.json's content, or `null`. */
  function RawTree(data: Dataset): Nullish<TreeSegment> {
    Utils.ReadJson(data.tree, Undefined)
  }

  /**
   * build.ts as a whole. The station records are updated in place and returned in the map's
   * order; lines and tree are assembled from the other files; an unresolvable tree node aborts
   * the build after its warning. The console output is returned as `log`.
   */
  method Build(data: Dataset, rewind: Geometry -> Geometry) returns (r: Result<Document, int>, log: seq<Message>)
    requires forall s :: s in Records(data) ==> WellFormed(s.voronoi)
    modifies set s | s in Records(data)
    ensures var m := RawStation(data);
            log == StationsLog(m, ListOrEmpty(data.delaunay), Values(m), old(VoronoisOf(Values(m))), |m|)
                   + LinesLog(data.lineFiles, ListOrEmpty(data.line))
                   + TreeLog(m, RawTree(data))
    ensures r.Success? <==> TreeOf(RawStation(data), RawTree(data)).Success?
    ensures r.Failure? ==> r.error == TreeOf(RawStation(data), RawTree(data)).error
    ensures r.Success? ==>
              var m := RawStation(data);
              && r.value.station == Values(m)
              && (forall i :: 0 <= i < |m| ==>
                    Assembled(m, ListOrEmpty(data.delaunay), rewind, r.value.station[i], old(r.value.station[i].voronoi)))
              && r.value.line == Lines.Lines(data.lineFiles, ListOrEmpty(data.line))
              && r.value.tree == TreeOf(m, RawTree(data)).value
  {
    var delaunayPoints := ListOrEmpty(data.delaunay);
    var rawStation := RawStation(data);
    ghost var before := VoronoisOf(Values(rawStation));
    var station, stationLog := AssembleStations(rawStation, delaunayPoints, rewind, before);

    var line, lineLog := AssembleLines(ListOrEmpty(data.line), data.lineFiles);

    var tree, treeLog := ReconcileTree(rawStation, RawTree(data));
    log := stationLog + lineLog + treeLog;
    if tree.Failure? {
      return Failure(tree.error), log;
    }
    r := Success(Document(station, line, tree.value));
  }

  /** Each record's boundary in the current state. */
  ghost function VoronoisOf(records: seq<StationRecord>): (v: seq<Feature>)
    reads set s | s in records
    ensures |v| == |records| && forall i :: 0 <= i < |records| ==> v[i] == records[i].voronoi
  {
    seq(|records|, i requires 0 <= i < |records| reads set s | s in records => records[i].voronoi)
  }

  /** The key `for...in` yields for index `i` of an array: its decimal digits. */
  function IndexKey(i: nat): string
    decreases i
  {
    if i < 10 then [Digit(i)] else IndexKey(i / 10) + [Digit(i % 10)]
  }

  function Digit(d: nat): char
    requires d < 10
  {
    "0123456789"[d]
  }

  /** An optional id as it sits in the document: the number, or `absent` (`undefined` as built). */
  function OptionalId(id: Option<int>, absent: Utils.Json): Utils.Json {
    match id
    case Some(n) => Utils.Number(n)
    case None => absent
  }

  /** `{ id: s.id, left: left?.id, right: right?.id }` */
  function NodeJson(node: TreeNode, absent: Utils.Json): Utils.Json {
    Utils.Container(false, [
      Utils.Member("id", Utils.Number(node.id)),
      Utils.Member("left", OptionalId(node.left, absent)),
      Utils.Member("right", OptionalId(node.right, absent))])
  }

  /** `tree: { root: treeRoot, node_list: tree }`, with `absent` in every slot whose id is missing. */
  function TreeJson(tree: TreeOut, absent: Utils.Json): Utils.Json {
    Utils.Container(false, [
      Utils.Member("root", OptionalId(tree.root, absent)),
      Utils.Member("node_list", Utils.Container(true,
        seq(|tree.node_list|, i requires 0 <= i < |tree.node_list| => Utils.Member(IndexKey(i), NodeJson(tree.node_list[i], absent)))))])
  }

  /**
   * The tree is the part of the document that holds `undefined`: an absent root or child id.
   * Cleaning it before encoding turns exactly those slots into `null` and leaves no `undefined`.
   */
  lemma TreeJsonCleaned(tree: TreeOut)
    ensures Utils.Scrub(TreeJson(tree, Utils.Undefined)) == TreeJson(tree, Utils.Json.Null)
    ensures Utils.NoUndefined(TreeJson(tree, Utils.Json.Null))
  {
    var nodes := tree.node_list;
    forall i | 0 <= i < |nodes|
      ensures Utils.Scrub(NodeJson(nodes[i], Utils.Undefined)) == NodeJson(nodes[i], Utils.Json.Null)
    {
      var before := NodeJson(nodes[i], Utils.Undefined);
      assert Utils.Scrub(before).members == NodeJson(nodes[i], Utils.Json.Null).members;
    }
    var list := TreeJson(tree, Utils.Undefined).members[1].value;
    assert Utils.Scrub(list).members == TreeJson(tree, Utils.Json.Null).members[1].value.members;
    assert Utils.Scrub(TreeJson(tree, Utils.Undefined)).members == TreeJson(tree, Utils.Json.Null).members;
    Utils.ScrubSound(TreeJson(tree, Utils.Undefined));
  }

  /**
   * `encodeMessagePack` on an object graph that holds the output tree: after `removeUndefined` the
   * graph holds the tree with `null` in place of every absent id.
   */
  method CleanTree(obj: Utils.JsObject, ghost tree: TreeOut)
    requires obj.Valid() && obj.Model() == TreeJson(tree, Utils.Undefined)
    modifies obj.Repr
    ensures obj.Valid() && obj.Model() == TreeJson(tree, Utils.Json.Null)
  {
    var cleaned := Utils.RemoveUndefined(obj);
    TreeJsonCleaned(tree);
  }
}
