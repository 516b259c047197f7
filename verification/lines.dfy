/**
 * Line assembly: every line of line.json whose detail file can be read is emitted as that detail
 * record, with its polyline attached and its embedded station objects replaced by their ids.
 */
module Lines {
  import opened Js
  import opened Console
  import Utils

  /** The fields of a line record the build never touches (name, kana, station_size, colour, ...). */
  type LineFields(==, !new)
  /** The fields of a line.json summary other than its code. */
  type SummaryFields(==, !new)
  /** The fields of a station entry of a line other than its code and id. */
  type EntryFields(==, !new)
  /** The content of a polyline file (a GeoJSON FeatureCollection); never inspected. */
  type Polyline(==, !new)

  /** An entry of line.json. */
  datatype LineSummary = LineSummary(code: int, fields: SummaryFields)

  /** A station as listed in a line detail file. */
  datatype StationEntry = StationEntry(code: int, id: int, fields: EntryFields)

  /** The content of `line/{code}.json`. */
  datatype LineDetail = LineDetail(code: int, id: int, fields: LineFields, station_list: seq<StationEntry>)

  /** A line of the output document. */
  datatype Line = Line(code: int, id: int, fields: LineFields, station_list: seq<int>, polyline_list: Nullish<Polyline>)

  /** The dataset's per-line files, by line code. */
  datatype LineFiles = LineFiles(detail: int -> Utils.FileContent<LineDetail>, polyline: int -> Utils.FileContent<Polyline>)

  /** `station_list.map(x => x.id)` */
  function StationIds(entries: seq<StationEntry>): seq<int> {
    seq(|entries|, i requires 0 <= i < |entries| => entries[i].id)
  }

  /**
   * The output record made from a detail record: the detail itself, not merged with the summary,
   * with `station_list` replaced by the stations' ids in the same order and `polyline_list` set to
   * what reading the polyline file gives.
   */
  function LineOf(detail: LineDetail, polyline: Utils.FileContent<Polyline>): (r: Line)
    ensures r.code == detail.code && r.id == detail.id && r.fields == detail.fields
    ensures |r.station_list| == |detail.station_list|
    ensures forall i :: 0 <= i < |r.station_list| ==> r.station_list[i] == detail.station_list[i].id
    ensures !r.polyline_list.Undefined?
    ensures r.polyline_list.Null? <==> !polyline.Parsed?
    ensures polyline.Parsed? ==> r.polyline_list == Defined(polyline.value)
  {
    Line(detail.code, detail.id, detail.fields, StationIds(detail.station_list), Utils.ReadJson(polyline, Undefined))
  }

  /** What one summary contributes: a line, or nothing when its detail file yields no value. */
  function LineFor(files: LineFiles, summary: LineSummary): Option<Line> {
    match Utils.ReadJson(files.detail(summary.code), Undefined)
    case Defined(detail) => Some(LineOf(detail, files.polyline(summary.code)))
    case _ => None
  }

  /** The output `line` list for the summaries `s`, in their order. */
  function Lines(files: LineFiles, s: seq<LineSummary>): seq<Line> {
    if s == [] then []
    else
      Lines(files, s[..|s| - 1])
        + match LineFor(files, s[|s| - 1]) case None => [] case Some(l) => [l]
  }

  /** What one round of the line loop writes to the console. */
  function LineMessages(files: LineFiles, summary: LineSummary): seq<Message> {
    if !Utils.ReadJson(files.detail(summary.code), Undefined).Defined? then [LineNotFound(summary.code)]
    else if !Utils.ReadJson(files.polyline(summary.code), Undefined).Defined? then [PolylineNotFound(summary.code)]
    else []
  }

  function LinesLog(files: LineFiles, s: seq<LineSummary>): seq<Message> {
    if s == [] then [] else LinesLog(files, s[..|s| - 1]) + LineMessages(files, s[|s| - 1])
  }

  /** The line loop (build.ts lines 45-60). */
  method AssembleLines(summaries: seq<LineSummary>, files: LineFiles) returns (line: seq<Line>, log: seq<Message>)
    ensures line == Lines(files, summaries)
    ensures log == LinesLog(files, summaries)
  {
    line, log := [], [];
    for i := 0 to |summaries|
      invariant line == Lines(files, summaries[..i])
      invariant log == LinesLog(files, summaries[..i])
    {
      assert summaries[..i + 1][..i] == summaries[..i];
      var item := summaries[i];
      var lineData := Utils.ReadJson(files.detail(item.code), Undefined);
      if !lineData.Defined? {
        log := log + [LineNotFound(item.code)];
        continue;
      }

      var polylineData := Utils.ReadJson(files.polyline(item.code), Undefined);
      if !polylineData.Defined? {
        log := log + [PolylineNotFound(item.code)];
      }

      var x := lineData.value;
      line := line + [Line(x.code, x.id, x.fields, StationIds(x.station_list), polylineData)];
    }
    assert summaries[..|summaries|] == summaries;
  }

  /** The output follows line.json order: assembling distributes over concatenation. */
  lemma {:induction false} LinesAppend(files: LineFiles, a: seq<LineSummary>, b: seq<LineSummary>)
    ensures Lines(files, a + b) == Lines(files, a) + Lines(files, b)
  {
    if b == [] {
      assert a + b == a;
    } else {
      LinesAppend(files, a, b[..|b| - 1]);
      assert (a + b)[..|a + b| - 1] == a + b[..|b| - 1];
    }
  }

  /** At most one line per summary, and exactly one each when no detail file is missing. */
  lemma {:induction false} LinesLength(files: LineFiles, s: seq<LineSummary>)
    ensures |Lines(files, s)| <= |s|
    ensures |Lines(files, s)| == |s| <==> forall k :: 0 <= k < |s| ==> LineFor(files, s[k]).Some?
  {
    if s != [] {
      var init := s[..|s| - 1];
      LinesLength(files, init);
      if !(forall k :: 0 <= k < |s| ==> LineFor(files, s[k]).Some?) {
        var k :| 0 <= k < |s| && LineFor(files, s[k]).None?;
        if k < |s| - 1 {
          assert init[k] == s[k];
        }
      }
    }
  }

  /** A line is emitted exactly when some summary's detail file yields it. */
  lemma {:induction false} LinesMembers(files: LineFiles, s: seq<LineSummary>)
    ensures forall l :: l in Lines(files, s) <==> exists k :: 0 <= k < |s| && LineFor(files, s[k]) == Some(l)
  {
    if s != [] {
      var init := s[..|s| - 1];
      LinesMembers(files, init);
      forall l ensures l in Lines(files, s) <==> exists k :: 0 <= k < |s| && LineFor(files, s[k]) == Some(l) {
        if exists k :: 0 <= k < |s| && LineFor(files, s[k]) == Some(l) {
          var k :| 0 <= k < |s| && LineFor(files, s[k]) == Some(l);
          if k < |s| - 1 {
            assert init[k] == s[k];
          }
        }
        if l in Lines(files, init) {
          var k :| 0 <= k < |init| && LineFor(files, init[k]) == Some(l);
          assert s[k] == init[k];
        }
      }
    }
  }

  /** Every skipped line is reported, and only those: the warning names a summary whose detail file yields no value. */
  lemma {:induction false} LinesLogSkips(files: LineFiles, s: seq<LineSummary>)
    ensures forall c :: LineNotFound(c) in LinesLog(files, s)
                        <==> exists k :: 0 <= k < |s| && s[k].code == c && LineFor(files, s[k]).None?
  {
    if s != [] {
      var init := s[..|s| - 1];
      LinesLogSkips(files, init);
      forall c ensures LineNotFound(c) in LinesLog(files, s)
                       <==> exists k :: 0 <= k < |s| && s[k].code == c && LineFor(files, s[k]).None? {
        if exists k :: 0 <= k < |s| && s[k].code == c && LineFor(files, s[k]).None? {
          var k :| 0 <= k < |s| && s[k].code == c && LineFor(files, s[k]).None?;
          if k < |s| - 1 {
            assert init[k] == s[k];
          }
        }
        if exists k :: 0 <= k < |init| && init[k].code == c && LineFor(files, init[k]).None? {
          var k :| 0 <= k < |init| && init[k].code == c && LineFor(files, init[k]).None?;
          assert s[k] == init[k];
        }
      }
    }
  }
}
