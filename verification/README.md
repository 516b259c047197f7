# ekimemo-map-database build, modelled in Dafny

The build script reads the station database (`station.json`, `delaunay.json`, `line.json`, one
detail file and one optional polyline file per line, `tree.json`). It then reconciles the files
into one document `{ station, line, tree }` and MessagePack-encodes that document. This project
models the reconciliation and the two helpers that fix its edge-case policy.

- **Stations** (`stations.dfy`). Station records are objects updated in place (`class
  StationRecord`), kept in a JavaScript `Map` keyed by station code (`codemap.dfy`). Each record
  gets `delaunay`: the ids of its Delaunay neighbours, with unresolved codes dropped. An open
  `LineString` boundary is closed into a one-ring `Polygon` and passed to `rewind`
  (`geometry.dfy`).
- **Lines** (`lines.dfy`). Each line.json summary whose detail file yields a value is emitted as
  that detail record. The polyline is attached, and the embedded station objects are replaced by
  their ids.
- **Tree** (`tree.dfy`). kd-tree nodes, children and the root are re-keyed from station codes to
  ids. An unresolvable node code aborts the build.
- **Utilities** (`utils.dfy`):
  - the fallback policy of `readJson`;
  - `removeUndefined`, an in-place walk over an object graph (`class JsObject`) that turns every
    `undefined` into `null`.
- **Whole build** (`build.dfy`). `Build` composes the stages, in the script's order.

Console output is a log of `Console.Message` values, one constructor per `console.warn` or
`console.log` call site (the two child warnings of build.ts:79-80 are `LeftNotFound` and
`RightNotFound`). Each stage returns its log, and each log is tied to a reference
function.

Behaviour of build.ts worth knowing:

- An emitted line is the detail record alone, not merged with its summary.
- A missing polyline gives `polyline_list == null`, not an absent key.
- A repeated station code is not an error. The `Map` keeps the code's first position and the
  last record with that code.
- A missing or unparsable file is never fatal. `readJson` falls back to `[]` or `null`.
- A tree node whose code does not resolve aborts the build (`throw console.warn(...)`). It does
  not just warn.
- `station_size` is never compared with the length of `station_list`.
- A line's `station_list` takes each entry's own `id`. The ids are not looked up in the station
  map.

## Model

| member | source | states |
|---|---|---|
| `Geometry.CloseRing` | build.ts:24-30 | the ring is the coordinates followed by one more position; it has length n+1, its first n positions are the coordinates, and its last position equals its first |
| `Geometry.NormalizeVoronoi` | build.ts:21-35 | a Polygon boundary is kept unchanged; a LineString boundary keeps its properties and gets as geometry `rewind` of a one-ring Polygon whose ring is the closed line |
| `Geometry.NormalizeIdempotent` | build.ts:21-35 | when `rewind` maps a Polygon to a Polygon, normalising a normalised boundary changes nothing |
| `CodeMap.Get` | build.ts:16 | `get` yields nothing exactly when the key is absent; otherwise it yields the value of an entry with that key |
| `CodeMap.Set` | build.ts:6 | `set` on a present key keeps the key order, and on a new key appends it; afterwards the key maps to the new value, every other key keeps its value, and every entry is the new pair or an old entry |
| `CodeMap.FromEntries` | build.ts:6 | `new Map(pairs)` has no repeated key, and every entry is one of the pairs |
| `CodeMap.FromEntriesKeys` | build.ts:6 | the map's keys are the pairs' keys in order of first occurrence, each once |
| `CodeMap.FromEntriesGet` | build.ts:6 | under a key repeated among the pairs, the map holds the value of the last such pair |
| `Stations.StationMapOf` | build.ts:6 | `rawStation` stores each record under its own code, with no code twice; its codes are the records' codes in first-occurrence order, and each holds the last record with that code |
| `Stations.FindDelaunay` | build.ts:10 | `find` yields nothing exactly when no record has the code; otherwise it yields the first record with that code |
| `Stations.DelaunayOf` | build.ts:10-19 | a station without a Delaunay record gets `[]`; otherwise it gets the neighbour ids of the first record with its code (`NeighbourIds` of its `next`), no more ids than its record has `next` codes, and every id is the id of a station in the map |
| `Stations.NeighbourIdsAppend` | build.ts:15-19 | resolving the neighbour codes keeps their relative order: it distributes over concatenation |
| `Stations.NeighbourIdsSingle` | build.ts:16-19 | one code contributes its station's id, or nothing when it does not resolve |
| `Stations.NeighbourIdsBound` | build.ts:15-19 | at most one id per `next` code; exactly as many ids as codes iff every code resolves, and then the i-th id belongs to the i-th code |
| `Stations.NeighbourIdsMembers` | build.ts:15-19 | an id is a neighbour iff some `next` code resolves to it |
| `Stations.NeighbourWarningsComplete` | build.ts:16-17 | a neighbour warning names code c iff c is among the `next` codes and yields no truthy id; all these warnings carry the station's code |
| `Stations.StationMessagesDelaunay` | build.ts:10-11 | the "delaunay not found" warning is written iff no Delaunay record has the station's code |
| `Stations.AssembleStation` | build.ts:10-38 | one round of the station loop leaves in the record the resolved neighbour ids and the normalised boundary, and writes that station's messages |
| `Stations.AssembleStations` | build.ts:9-41 | the output list is exactly the map's records, in the map's order; each has been given its neighbour ids and normalised boundary; the log is the concatenation of every station's messages |
| `Utils.ReadJson` | utils.ts:31-40 | `readJson` never yields `undefined`; a parsed non-null value is returned as is; otherwise the result is the fallback when defined, else `null` |
| `Utils.ReadJsonFallback` | utils.ts:36-38 | with a defined fallback the result is always a value; without one the result is `null` exactly when the file yields no value |
| `Utils.ScrubSound` | utils.ts:43-48 | after `removeUndefined` no slot at any depth holds `undefined`, and the keys, their order, the scalars and the `null`s are unchanged |
| `Utils.ScrubUnique` | utils.ts:42-51 | any result that only replaces `undefined` by `null` and leaves none is the reference result: the two descriptions agree |
| `Utils.ScrubIdempotent` | utils.ts:42-51 | a value without `undefined` is left as it is, so a second pass changes nothing |
| `Utils.RemoveUndefined` | utils.ts:42-51 | the argument object itself is returned; the graph keeps its objects and its tree shape, and what it holds afterwards is the reference cleaning of what it held |
| `Utils.CleanSlot` | utils.ts:44-48 | one key of the `for...in` loop: that slot is cleaned (recursively for a nested object) and no other slot changes |
| `Lines.LineOf` | build.ts:52-57 | the output line is the detail record with the same code, id and fields; its station list has the same length, and element i is the id of the i-th station entry; `polyline_list` is never `undefined`: it is the polyline file's value, or `null` exactly when that file yields none |
| `Lines.AssembleLines` | build.ts:45-60 | the line loop yields the lines of the summaries in order, and the warnings for each summary |
| `Lines.LinesAppend` | build.ts:45-60 | the output follows line.json order: assembling distributes over concatenation of the summaries |
| `Lines.LinesLength` | build.ts:45-50 | at most one line per summary, and one for each summary exactly when no detail file is missing |
| `Lines.LinesMembers` | build.ts:45-59 | a line is in the output iff some summary's detail file yields it |
| `Lines.LinesLogSkips` | build.ts:46-50 | a "line not found" warning names code c iff some summary with code c is skipped |
| `Tree.ChildLookup` | build.ts:76-77 | a child lookup gives `null` iff the child code is falsy; `undefined` iff it is truthy and unresolved; otherwise it gives the station stored under the code |
| `Tree.ChildId` | build.ts:76-85 | an output child id is present iff the child code is truthy and resolves, and it is then that station's id |
| `Tree.NodeOf` | build.ts:73-86 | an output vertex carries the id of the node's station and the ids of its children |
| `Tree.ReconcileResolves` | build.ts:72-87 | the node loop finishes iff every node code resolves |
| `Tree.ReconcileVertices` | build.ts:72-87 | when every node code resolves, the node loop finishes and yields one vertex per node, in the same order, each the re-keyed node |
| `Tree.ReconcileFailure` | build.ts:73-74 | an aborted node loop names the first node whose code does not resolve |
| `Tree.ReconcileNode` | build.ts:73-86 | one round of the node loop yields nothing iff the node code does not resolve, and then writes only the node warning; otherwise it yields the vertex and the child warnings |
| `Tree.ReconcileNodes` | build.ts:72-87 | the node loop, with its early exit, yields the reference result and log |
| `Tree.TreeRoot` | build.ts:90-95 | the root id is absent iff the tree is missing, its root code is falsy, or the root code does not resolve; otherwise it is the root station's id |
| `Tree.ReconcileTree` | build.ts:62-97 | the tree stage yields the re-keyed nodes and the root, or the abort, with its warnings in order |
| `Tree.TreeWithoutNodes` | build.ts:69-70 | a missing `node_list` gives an empty output list and a first warning, and never aborts |
| `Tree.TreeRootReported` | build.ts:91-97 | "root not found" is written iff the output root is absent or falsy; "root does not exist" is written iff the root code is missing or falsy |
| `Build.ListOrEmpty` | build.ts:5-6 | a list file yields its parsed list, or `[]` when it is missing, malformed or `null` |
| `Build.RawStation` | build.ts:6 | `rawStation` is a code map whose records all come from station.json |
| `Build.TreeJsonCleaned` | build.ts:99-106 | in the encoded document's `tree`, cleaning turns exactly the absent root and child ids into `null`, and no `undefined` is left |
| `Build.CleanTree` | utils.ts:42-55 | an object graph that holds the output tree, with `undefined` for absent ids, holds the same tree with `null` in those slots once `removeUndefined` has run |
| `Build.Build` | build.ts:5-97 | the build aborts iff a tree node code does not resolve; otherwise the document holds the map's records, each assembled, the lines of line.json, and the re-keyed tree; the log is the station, line and tree messages in that order |

## Left out

- Reading the files is not modelled: `rootPath` and its check, `Deno.exit`, `Deno.readTextFileSync` and `JSON.parse`. Each file is a `Utils.FileContent` value (unreadable, malformed, `null`, or a parsed value).
- Writing `station_database.msgpack` (build.ts:99) is not modelled; it is I/O.
- `rewind` from `@mapbox/geojson-rewind` is a foreign library. It is a parameter of type `Geometry -> Geometry`. Its winding rule needs floating-point signed areas.
- The MessagePack `encode` and `encodeMessagePack` (utils.ts:53-55) are not modelled separately. The encoder is foreign code. Only `removeUndefined`, which runs before it, is modelled.
- Only the `tree` part of the document is written out as a JSON value (`Build.TreeJson`). Its absent `root`, `left` and `right` ids are the document's `undefined` slots. The station and line parts are not converted: every station is given `delaunay`, and `polyline_list` is a value or `null`. The heap object graph of the whole document is not built.
- Coordinates, properties and the station, line and entry fields the build never reads are opaque types with equality.
- The text of console lines is not modelled. This includes the swapped "(left)"/"(right)" labels of build.ts:79-80 (the model tells the two warnings apart by the child they concern) and the difference between `console.log` and `console.warn`.
- A LineString boundary with no position (build.ts:24) is excluded by `Geometry.WellFormed`. In the code, `coordinates[0]` is then `undefined`.
- The schemas are never checked at run time (`readJson` ignores its schema argument). The model assumes every parsed file has its schema's shape.
- Line detail records are modelled as values, not as objects updated in place. Each comes fresh from its own `readJson` call and is not shared.
- `Geometry.NormalizeIdempotent`: holds only under the stated assumption that `rewind` maps a Polygon to a Polygon. The library's own behaviour is not modelled.
