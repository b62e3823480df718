/** The reparse pass of src/server/server.ts as functions: what `parseFile`
    does to the dependency graph, the cache of dependency files and the pass's
    diagnostics map, and what it leaves in the parsed file's record. The
    methods of `Server.LanguageServer` are proved to compute exactly these
    functions; the lemmas of `ParseProperties` state what they guarantee. */
module ParseSpec {
  import opened Common
  import opened Types
  import opened IncludeResolver
  import opened DependencyManager

  /** One diagnostics array of a pass, with the URI it was created for. */
  datatype DiagnosticList = DiagnosticList(owner: Uri, items: seq<Diagnostic>)

  /** The pass's `Map<string, Diagnostic[]>`. The arrays live in `lists`; the
      map sends a URI to the index of its current array; `order` is the
      map's key order, which is insertion order. A second `set` of a URI
      points it at a new array: pushes through the old one are then lost. */
  datatype DiagnosticsMap = DiagnosticsMap(lists: seq<DiagnosticList>, order: seq<Uri>, index: map<Uri, nat>)
  {
    ghost predicate Valid() {
      && Distinct(order)
      && (forall k :: 0 <= k < |order| ==> order[k] in index)
      && (forall u :: u in index ==> u in order)
      && (forall u :: u in index ==> index[u] < |lists| && lists[index[u]].owner == u)
      && (forall k :: 0 <= k < |lists| ==> lists[k].owner in index && k <= index[lists[k].owner])
    }
  }

  function EmptyDiagnostics(): (d: DiagnosticsMap)
    ensures d.Valid()
  {
    DiagnosticsMap([], [], map[])
  }

  /** `diagnostics.set(uri, myDiagnostics)` for a new, empty array. */
  function SetFresh(d: DiagnosticsMap, uri: Uri): (r: DiagnosticsMap)
    ensures |r.lists| == |d.lists| + 1 && r.lists[|d.lists|] == DiagnosticList(uri, [])
    ensures r.lists[..|d.lists|] == d.lists
    ensures r.index == d.index[uri := |d.lists|]
    ensures r.order == (if uri in d.index then d.order else d.order + [uri])
  {
    DiagnosticsMap(d.lists + [DiagnosticList(uri, [])],
                   if uri in d.index then d.order else d.order + [uri],
                   d.index[uri := |d.lists|])
  }

  lemma SetFreshValid(d: DiagnosticsMap, uri: Uri)
    requires d.Valid()
    ensures SetFresh(d, uri).Valid()
  {
    var r := SetFresh(d, uri);
    forall k | 0 <= k < |r.lists|
      ensures r.lists[k].owner in r.index && k <= r.index[r.lists[k].owner]
    {
      if k < |d.lists| {
        assert r.lists[k] == d.lists[k];
      }
    }
    forall u | u in r.index
      ensures r.index[u] < |r.lists| && r.lists[r.index[u]].owner == u
    {
      if u != uri {
        assert r.lists[d.index[u]] == d.lists[d.index[u]];
      }
    }
    if uri !in d.index {
      forall j, k | 0 <= j < k < |r.order| ensures r.order[j] != r.order[k] {
        if k == |d.order| {
          assert d.order[j] in d.index;
        }
      }
    }
  }

  /** `myDiagnostics.push(...ds)` on the array at index `h`. */
  function Push(d: DiagnosticsMap, h: nat, ds: seq<Diagnostic>): (r: DiagnosticsMap)
    requires h < |d.lists|
    ensures |r.lists| == |d.lists| && r.lists[h] == DiagnosticList(d.lists[h].owner, d.lists[h].items + ds)
    ensures forall k :: 0 <= k < |d.lists| && k != h ==> r.lists[k] == d.lists[k]
    ensures r.order == d.order && r.index == d.index
  {
    DiagnosticsMap(d.lists[h := DiagnosticList(d.lists[h].owner, d.lists[h].items + ds)], d.order, d.index)
  }

  lemma PushValid(d: DiagnosticsMap, h: nat, ds: seq<Diagnostic>)
    requires d.Valid() && h < |d.lists|
    ensures Push(d, h, ds).Valid()
  {
  }

  /** What `diagnostics.forEach(sendDiagnostics)` sends, in order. */
  function Publish(d: DiagnosticsMap): (r: seq<(Uri, seq<Diagnostic>)>)
    requires d.Valid()
    ensures |r| == |d.order| && forall k :: 0 <= k < |r| ==> r[k].0 == d.order[k]
  {
    seq(|d.order|, k requires 0 <= k < |d.order| => (d.order[k], d.lists[d.index[d.order[k]]].items))
  }

  /** The dependency manager's counts and `dependenciesData`, the cache of
      dependency files keyed by the dependency's URI. */
  datatype Graph = Graph(refCount: map<Uri, nat>, dependenciesData: map<Uri, DocumentData>)

  datatype Store = Store(graph: Graph, diagnostics: DiagnosticsMap)

  /** What a pass consults and cannot change: the readable paths
      (`accessSync(_, R_OK)` succeeds), the files `readFileSync` can read,
      the configured include paths, `resolvePathVariables` for a document
      path, and the parser. */
  datatype Env = Env(
    readable: set<Path>,
    files: map<Path, string>,
    includePaths: seq<string>,
    expand: (string, Path) -> string,
    parse: (Uri, string, bool) -> ParserResults)

  /** The file an include directive of document `uri` resolves to. */
  function ResolveHeader(env: Env, uri: Uri, header: InclusionDescriptor): Option<Uri> {
    var localTo := if header.isLocal then Some(Dirname(uri)) else None;
    FirstReadable(Candidates(localTo, ExpandAll(env.includePaths, env.expand, uri)), header.filename, env.readable)
  }

  /** The diagnostic for a directive that resolves to no file. */
  function UnresolvedDiagnostic(header: InclusionDescriptor): Diagnostic {
    Diagnostic("Couldn't resolve include path '" + header.filename + "'. Check compiler include paths.",
               if header.isSilent then Information else Error,
               "amxxpawn",
               Range(header.start, header.end))
  }

  /** Lines 274-279: a reference is added when the manager has no node for
      `u` or the document's previous dependency list lacks it; the count of
      `u` goes up by one exactly then, and nothing else changes. */
  function TakeReference(refCount: map<Uri, nat>, u: Uri, previous: seq<Uri>): (r: map<Uri, nat>)
    ensures r.Keys == refCount.Keys + {u}
    ensures Count(r, u) == Count(refCount, u) + (if u !in refCount || u !in previous then 1 else 0)
    ensures forall v :: v != u ==> Count(r, v) == Count(refCount, v)
  {
    if u !in refCount then Added(refCount, u)
    else if u !in previous then Added(refCount, u)
    else refCount
  }

  /** `data.dependencies.filter(dep => !dependencies.includes(dep))`. */
  function Dropped(previous: seq<Uri>, current: seq<Uri>): seq<Uri> {
    if previous == [] then []
    else (if previous[0] in current then [] else [previous[0]]) + Dropped(previous[1..], current)
  }

  /** The dropped dependencies are the previous ones missing from the new
      list, each as often as it occurred before. */
  lemma {:induction false} DroppedSpec(previous: seq<Uri>, current: seq<Uri>)
    ensures forall u :: u in Dropped(previous, current) <==> u in previous && u !in current
    ensures forall u :: Occurrences(Dropped(previous, current), u) == if u in current then 0 else Occurrences(previous, u)
  {
    if previous != [] {
      DroppedSpec(previous[1..], current);
      var head := if previous[0] in current then [] else [previous[0]];
      OccurrencesConcat(head, Dropped(previous[1..], current));
      assert previous == [previous[0]] + previous[1..];
      OccurrencesConcat([previous[0]], previous[1..]);
    }
  }

  /** `Helpers.removeDependencies`: one release per listed dependency, in
      order; a node whose last reference goes loses its cached file too. */
  function ReleaseSpec(g: Graph, deps: seq<Uri>): (r: Graph)
    ensures r.refCount.Keys <= g.refCount.Keys && r.dependenciesData.Keys <= g.dependenciesData.Keys
    ensures forall u :: u !in deps ==> Count(r.refCount, u) == Count(g.refCount, u)
    decreases |deps|
  {
    if deps == [] then g else ReleaseSpec(ReleaseOne(g, deps[0]), deps[1..])
  }

  function ReleaseOne(g: Graph, u: Uri): Graph {
    var r := Released(g.refCount, u);
    Graph(r.refCount, if r.removed then g.dependenciesData - {u} else g.dependenciesData)
  }

  /** Readable files not yet cached: each nested parse caches one more. */
  function Unexplored(env: Env, st: Store): nat {
    |env.readable - st.graph.dependenciesData.Keys|
  }

  datatype Parsed = Parsed(store: Store, data: DocumentData)

  datatype Pass = Pass(store: Store, inclusions: seq<ResolvedInclusion>, dependencies: seq<Uri>)

  /** `parseFile(fileUri, content, data, diagnostics, isDependency)`, lines
      255-311. The parser and the include search use `fileUri`; the
      diagnostics key and the self-include test use `data.uri`. */
  function ParseFileSpec(env: Env, st: Store, fileUri: Uri, content: string, data: DocumentData,
                         isDependency: bool): (r: Parsed)
    ensures |st.diagnostics.lists| < |r.store.diagnostics.lists|
    ensures data.dependencies == [] ==>
              st.graph.dependenciesData.Keys <= r.store.graph.dependenciesData.Keys
    decreases Unexplored(env, st), 1, 0, 0
  {
    var h := |st.diagnostics.lists|;
    var results := env.parse(fileUri, content, isDependency);
    var diagnostics := Push(SetFresh(st.diagnostics, data.uri), h, results.diagnostics);
    var pass := IncludesSpec(env, Store(st.graph, diagnostics), fileUri, data, h, results.headerInclusions, 0, [], []);
    var graph := ReleaseSpec(pass.store.graph, Dropped(data.dependencies, pass.dependencies));
    Parsed(Store(graph, pass.store.diagnostics),
           data.(resolvedInclusions := pass.inclusions, dependencies := pass.dependencies,
                 callables := results.callables, values := results.values))
  }

  /** The `headerInclusions.forEach` of `parseFile` from directive `i` on,
      with the inclusions and dependencies collected so far; `h` is the index
      of the file's own diagnostics array. */
  function IncludesSpec(env: Env, st: Store, fileUri: Uri, data: DocumentData, h: nat,
                        headers: seq<InclusionDescriptor>, i: nat,
                        inclusions: seq<ResolvedInclusion>, dependencies: seq<Uri>): (r: Pass)
    requires i <= |headers|
    requires h < |st.diagnostics.lists|
    ensures |st.diagnostics.lists| <= |r.store.diagnostics.lists|
    ensures st.graph.dependenciesData.Keys <= r.store.graph.dependenciesData.Keys
    decreases Unexplored(env, st), 0, |headers| - i, 0
  {
    if i == |headers| then Pass(st, inclusions, dependencies)
    else
      var step := IncludeStep(env, st, fileUri, data, h, headers[i]);
      CardinalityMonotone(env.readable, st.graph.dependenciesData.Keys, step.store.graph.dependenciesData.Keys);
      IncludesSpec(env, step.store, fileUri, data, h, headers, i + 1,
                   inclusions + step.inclusion, dependencies + step.dependency)
  }

  /** One step of the `forEach`. */
  lemma IncludesUnfold(env: Env, st: Store, fileUri: Uri, data: DocumentData, h: nat,
                       headers: seq<InclusionDescriptor>, i: nat,
                       inclusions: seq<ResolvedInclusion>, dependencies: seq<Uri>)
    requires i < |headers|
    requires h < |st.diagnostics.lists|
    ensures var step := IncludeStep(env, st, fileUri, data, h, headers[i]);
            IncludesSpec(env, st, fileUri, data, h, headers, i, inclusions, dependencies)
            == IncludesSpec(env, step.store, fileUri, data, h, headers, i + 1,
                            inclusions + step.inclusion, dependencies + step.dependency)
  {
  }

  datatype Step = Step(store: Store, inclusion: seq<ResolvedInclusion>, dependency: seq<Uri>)

  /** The `forEach` callback for one directive (lines 268-302): a directive
      naming the file itself is skipped; a resolved one takes a reference,
      loads the file and is recorded; an unresolved one adds a diagnostic to
      the file's own array. */
  function IncludeStep(env: Env, st: Store, fileUri: Uri, data: DocumentData, h: nat,
                       header: InclusionDescriptor): (r: Step)
    requires h < |st.diagnostics.lists|
    ensures |st.diagnostics.lists| <= |r.store.diagnostics.lists|
    ensures st.graph.dependenciesData.Keys <= r.store.graph.dependenciesData.Keys
    decreases Unexplored(env, st), 0, 0, 1
  {
    var resolved := ResolveHeader(env, fileUri, header);
    if resolved == Some(data.uri) then Step(st, [], [])
    else if resolved.Some? then
      var u := resolved.value;
      var counted := Store(st.graph.(refCount := TakeReference(st.graph.refCount, u, data.dependencies)), st.diagnostics);
      Step(LoadDependency(env, counted, u), [ResolvedInclusion(u, header)], [u])
    else
      Step(Store(st.graph, Push(st.diagnostics, h, [UnresolvedDiagnostic(header)])), [], [])
  }

  /** Lines 282-293: a dependency without a cached entry gets an empty one,
      then its file is read and parsed as a dependency; when the read fails
      the empty entry stays. */
  function LoadDependency(env: Env, st: Store, u: Uri): (r: Store)
    requires u in env.readable
    ensures |st.diagnostics.lists| <= |r.diagnostics.lists|
    ensures st.graph.dependenciesData.Keys + {u} <= r.graph.dependenciesData.Keys
    decreases Unexplored(env, st), 0, 0, 0
  {
    if u in st.graph.dependenciesData then st
    else
      var cached := WithPlaceholder(st, u);
      if u in env.files then
        PlaceholderShrinks(env, st, u);
        var parsed := ParseFileSpec(env, cached, u, env.files[u], NewDocumentData(u), true);
        Store(parsed.store.graph.(dependenciesData := parsed.store.graph.dependenciesData[u := parsed.data]),
              parsed.store.diagnostics)
      else
        cached
  }

  /** `dependenciesData.set(dependency, new DocumentData(uri))`. */
  function WithPlaceholder(st: Store, u: Uri): (r: Store)
    ensures r.graph.dependenciesData.Keys == st.graph.dependenciesData.Keys + {u}
    ensures r.graph.refCount == st.graph.refCount && r.diagnostics == st.diagnostics
  {
    Store(st.graph.(dependenciesData := st.graph.dependenciesData[u := NewDocumentData(u)]), st.diagnostics)
  }

  lemma PlaceholderShrinks(env: Env, st: Store, u: Uri)
    requires u in env.readable && u !in st.graph.dependenciesData
    ensures Unexplored(env, WithPlaceholder(st, u)) < Unexplored(env, st)
  {
    CardinalityShrinks(env.readable, st.graph.dependenciesData.Keys, u);
  }

  /** The load of a file that is readable and not cached yet. */
  lemma LoadUnfold(env: Env, st: Store, u: Uri)
    requires u in env.readable && u !in st.graph.dependenciesData && u in env.files
    ensures var parsed := ParseFileSpec(env, WithPlaceholder(st, u), u, env.files[u], NewDocumentData(u), true);
            && LoadDependency(env, st, u).diagnostics == parsed.store.diagnostics
            && LoadDependency(env, st, u).graph.dependenciesData.Keys == parsed.store.graph.dependenciesData.Keys + {u}
  {
  }

  /** Every pass keeps the diagnostics map well formed. */
  lemma {:induction false} ParseKeepsValid(env: Env, st: Store, fileUri: Uri, content: string, data: DocumentData,
                                           isDependency: bool)
    requires st.diagnostics.Valid()
    ensures ParseFileSpec(env, st, fileUri, content, data, isDependency).store.diagnostics.Valid()
    decreases Unexplored(env, st), 1, 0, 0
  {
    var h := |st.diagnostics.lists|;
    var results := env.parse(fileUri, content, isDependency);
    SetFreshValid(st.diagnostics, data.uri);
    PushValid(SetFresh(st.diagnostics, data.uri), h, results.diagnostics);
    var diagnostics := Push(SetFresh(st.diagnostics, data.uri), h, results.diagnostics);
    IncludesKeepValid(env, Store(st.graph, diagnostics), fileUri, data, h, results.headerInclusions, 0, [], []);
  }

  lemma {:induction false} IncludesKeepValid(env: Env, st: Store, fileUri: Uri, data: DocumentData, h: nat,
                                             headers: seq<InclusionDescriptor>, i: nat,
                                             inclusions: seq<ResolvedInclusion>, dependencies: seq<Uri>)
    requires i <= |headers|
    requires st.diagnostics.Valid() && h < |st.diagnostics.lists|
    ensures IncludesSpec(env, st, fileUri, data, h, headers, i, inclusions, dependencies).store.diagnostics.Valid()
    decreases Unexplored(env, st), 0, |headers| - i, 0
  {
    if i < |headers| {
      var step := IncludeStep(env, st, fileUri, data, h, headers[i]);
      StepKeepsValid(env, st, fileUri, data, h, headers[i]);
      CardinalityMonotone(env.readable, st.graph.dependenciesData.Keys, step.store.graph.dependenciesData.Keys);
      IncludesUnfold(env, st, fileUri, data, h, headers, i, inclusions, dependencies);
      IncludesKeepValid(env, step.store, fileUri, data, h, headers, i + 1,
                        inclusions + step.inclusion, dependencies + step.dependency);
    }
  }

  lemma {:induction false} StepKeepsValid(env: Env, st: Store, fileUri: Uri, data: DocumentData, h: nat,
                                          header: InclusionDescriptor)
    requires st.diagnostics.Valid() && h < |st.diagnostics.lists|
    ensures IncludeStep(env, st, fileUri, data, h, header).store.diagnostics.Valid()
    decreases Unexplored(env, st), 0, 0, 1
  {
    var resolved := ResolveHeader(env, fileUri, header);
    if resolved == Some(data.uri) {
    } else if resolved.Some? {
      var u := resolved.value;
      var counted := Store(st.graph.(refCount := TakeReference(st.graph.refCount, u, data.dependencies)), st.diagnostics);
      assert Unexplored(env, counted) == Unexplored(env, st);
      LoadKeepsValid(env, counted, u);
    } else {
      PushValid(st.diagnostics, h, [UnresolvedDiagnostic(header)]);
    }
  }

  lemma {:induction false} LoadKeepsValid(env: Env, st: Store, u: Uri)
    requires u in env.readable
    requires st.diagnostics.Valid()
    ensures LoadDependency(env, st, u).diagnostics.Valid()
    decreases Unexplored(env, st), 0, 0, 0
  {
    if u !in st.graph.dependenciesData && u in env.files {
      PlaceholderShrinks(env, st, u);
      ParseKeepsValid(env, WithPlaceholder(st, u), u, env.files[u], NewDocumentData(u), true);
      LoadUnfold(env, st, u);
    }
  }

  lemma SubsetCardinality(a: set<Path>, b: set<Path>)
    requires a <= b
    ensures |a| <= |b|
  {
    if a != {} {
      var x :| x in a;
      SubsetCardinality(a - {x}, b - {x});
    }
  }

  lemma CardinalityMonotone(readable: set<Path>, before: set<Path>, after: set<Path>)
    requires before <= after
    ensures |readable - after| <= |readable - before|
  {
    SubsetCardinality(readable - after, readable - before);
  }

  lemma CardinalityShrinks(readable: set<Path>, before: set<Path>, u: Path)
    requires u in readable && u !in before
    ensures |readable - (before + {u})| < |readable - before|
  {
    assert readable - (before + {u}) == (readable - before) - {u};
  }

  /** `Helpers.removeUnreachableDependencies`, whose source is not part of
      this model: given the records of the open documents it may change the
      counts and the cache in any way. */
  type Prune = (seq<DocumentData>, Graph) -> Graph

  /** `documentsManager.all().map(doc => documentsData.get(doc.uri))`
      without the undefined entries. */
  function Roots(open: seq<Uri>, documentsData: map<Uri, DocumentData>): (r: seq<DocumentData>)
    ensures |r| <= |open|
  {
    if open == [] then []
    else (if open[0] in documentsData then [documentsData[open[0]]] else []) + Roots(open[1..], documentsData)
  }

  /** The pruning pass gets exactly the records of the open documents that
      have one. */
  lemma {:induction false} RootsMembers(open: seq<Uri>, documentsData: map<Uri, DocumentData>)
    ensures forall d :: d in Roots(open, documentsData) <==>
              exists k :: 0 <= k < |open| && open[k] in documentsData && d == documentsData[open[k]]
  {
    if open != [] {
      RootsMembers(open[1..], documentsData);
      forall d | d in Roots(open, documentsData)
        ensures exists k :: 0 <= k < |open| && open[k] in documentsData && d == documentsData[open[k]]
      {
        if !(open[0] in documentsData && d == documentsData[open[0]]) {
          var k :| 0 <= k < |open[1..]| && open[1..][k] in documentsData && d == documentsData[open[1..][k]];
          assert open[k + 1] == open[1..][k];
        }
      }
      forall d | exists k :: 0 <= k < |open| && open[k] in documentsData && d == documentsData[open[k]]
        ensures d in Roots(open, documentsData)
      {
        var k :| 0 <= k < |open| && open[k] in documentsData && d == documentsData[open[k]];
        if k > 0 {
          assert open[1..][k - 1] == open[k];
        }
      }
    }
  }

  /** When every open document has a record, the pruning pass gets them all,
      in editor order. */
  lemma {:induction false} RootsAllOpen(open: seq<Uri>, documentsData: map<Uri, DocumentData>)
    requires forall k :: 0 <= k < |open| ==> open[k] in documentsData
    ensures Roots(open, documentsData) == seq(|open|, k requires 0 <= k < |open| => documentsData[open[k]])
  {
    if open != [] {
      RootsAllOpen(open[1..], documentsData);
    }
  }

  datatype Reparsed = Reparsed(documentsData: map<Uri, DocumentData>, graph: Graph,
                               published: seq<(Uri, seq<Diagnostic>)>)

  /** `reparseDocument` (lines 122-141) for an open document `uri` with text
      `text`, `open` being the documents the editor has open. */
  function ReparseSpec(env: Env, prune: Prune, documentsData: map<Uri, DocumentData>, graph: Graph,
                       uri: Uri, text: string, open: seq<Uri>): (r: Reparsed)
    ensures r.documentsData.Keys == documentsData.Keys + {uri}
    ensures forall u :: u in documentsData && u != uri ==> r.documentsData[u] == documentsData[u]
  {
    var data := if uri in documentsData then documentsData[uri] else NewDocumentData(uri);
    var parsed := ParseFileSpec(env, Store(graph, EmptyDiagnostics()), uri, text, data, false);
    ParseKeepsValid(env, Store(graph, EmptyDiagnostics()), uri, text, data, false);
    var docs := documentsData[uri := parsed.data];
    Reparsed(docs, prune(Roots(open, docs), parsed.store.graph), Publish(parsed.store.diagnostics))
  }

  lemma ReparseUnfold(env: Env, prune: Prune, documentsData: map<Uri, DocumentData>, graph: Graph,
                      uri: Uri, text: string, open: seq<Uri>, parsed: Parsed)
    requires parsed == ParseFileSpec(env, Store(graph, EmptyDiagnostics()), uri, text,
                                     if uri in documentsData then documentsData[uri] else NewDocumentData(uri), false)
    ensures parsed.store.diagnostics.Valid()
    ensures ReparseSpec(env, prune, documentsData, graph, uri, text, open)
            == Reparsed(documentsData[uri := parsed.data],
                        prune(Roots(open, documentsData[uri := parsed.data]), parsed.store.graph),
                        Publish(parsed.store.diagnostics))
  {
    ParseKeepsValid(env, Store(graph, EmptyDiagnostics()), uri, text,
                    if uri in documentsData then documentsData[uri] else NewDocumentData(uri), false);
  }

  datatype Closed = Closed(documentsData: map<Uri, DocumentData>, graph: Graph)

  /** The `onDidClose` handler (lines 210-220): the record is gone, the
      others stay, and closing a document without a record changes nothing. */
  function CloseSpec(prune: Prune, documentsData: map<Uri, DocumentData>, graph: Graph,
                     uri: Uri, open: seq<Uri>): (r: Closed)
    ensures r.documentsData == documentsData - {uri}
    ensures uri !in documentsData ==> r.graph == graph
  {
    if uri !in documentsData then Closed(documentsData, graph)
    else
      var released := ReleaseSpec(graph, documentsData[uri].dependencies);
      Closed(documentsData - {uri}, prune(Roots(open, documentsData), released))
  }
}
