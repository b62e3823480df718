/** The language server's state and its state-changing handlers
    (src/server/server.ts): `parseFile`, `reparseDocument`, the close handler
    and `Helpers.removeDependencies`. Each method is proved to compute the
    function of `ParseSpec` that specifies it. */
module Server {
  import opened Common
  import opened Types
  import opened IncludeResolver
  import opened DependencyManager
  import opened ParseSpec

  /** A second write to the same key hides the first. */
  lemma Overwrite<K, V>(m: map<K, V>, k: K, a: V, b: V)
    ensures m[k := a][k := b] == m[k := b]
  {
  }

  class LanguageServer {
    /** Records of the documents the editor opened, by URI. */
    var documentsData: map<Uri, DocumentData>
    /** Records of included files, by the URI of their dependency node. */
    var dependenciesData: map<Uri, DocumentData>
    const dependencyManager: FileDependencyManager

    constructor ()
      ensures documentsData == map[] && dependenciesData == map[]
      ensures fresh(dependencyManager) && dependencyManager.refCount == map[]
    {
      documentsData := map[];
      dependenciesData := map[];
      dependencyManager := new FileDependencyManager();
    }

    /** The dependency counts together with the cache of dependency files. */
    function CurrentGraph(): Graph
      reads this, dependencyManager
    {
      Graph(dependencyManager.refCount, dependenciesData)
    }

    /** `Helpers.removeDependencies(deps, dependencyManager, dependenciesData)`. */
    method RemoveDependencies(deps: seq<Uri>)
      modifies this, dependencyManager
      ensures CurrentGraph() == ReleaseSpec(old(CurrentGraph()), deps)
      ensures documentsData == old(documentsData)
    {
      ghost var start := CurrentGraph();
      for i := 0 to |deps|
        invariant ReleaseSpec(CurrentGraph(), deps[i..]) == ReleaseSpec(start, deps)
        invariant documentsData == old(documentsData)
      {
        assert deps[i..][1..] == deps[i + 1..];
        var removed := dependencyManager.RemoveReference(deps[i]);
        if removed {
          dependenciesData := dependenciesData - {deps[i]};
        }
      }
    }

    /** `Helpers.removeUnreachableDependencies` over the records of the
        documents in `open` (lines 137-138 and 214-217). */
    method RemoveUnreachable(prune: Prune, open: seq<Uri>)
      modifies this, dependencyManager
      ensures CurrentGraph() == prune(Roots(open, documentsData), old(CurrentGraph()))
      ensures documentsData == old(documentsData)
    {
      var pruned := prune(Roots(open, documentsData), CurrentGraph());
      dependencyManager.Replace(pruned.refCount);
      dependenciesData := pruned.dependenciesData;
    }

    /** `parseFile` (lines 255-311): parses one file, resolves its include
        directives, takes references on the files they name, parses every
        named file that has no cached record yet, releases the dependencies
        the file no longer has and returns the file's new record. */
    method ParseFile(env: Env, fileUri: Uri, content: string, data: DocumentData,
                     diagnostics: DiagnosticsMap, isDependency: bool)
      returns (parsed: DocumentData, diagnosticsOut: DiagnosticsMap)
      modifies this, dependencyManager
      ensures documentsData == old(documentsData)
      ensures Parsed(Store(CurrentGraph(), diagnosticsOut), parsed)
              == ParseFileSpec(env, Store(old(CurrentGraph()), diagnostics), fileUri, content, data, isDependency)
      decreases Unexplored(env, Store(CurrentGraph(), diagnostics)), 1, 0
    {
      var h := |diagnostics.lists|;
      var myDiagnostics := SetFresh(diagnostics, data.uri);
      var results := env.parse(fileUri, content, isDependency);
      myDiagnostics := Push(myDiagnostics, h, results.diagnostics);
      var headers := results.headerInclusions;
      var inclusions: seq<ResolvedInclusion> := [];
      var dependencies: seq<Uri> := [];
      ghost var start := Store(CurrentGraph(), myDiagnostics);
      ghost var entryKeys := dependenciesData.Keys;
      ghost var pass := IncludesSpec(env, start, fileUri, data, h, headers, 0, [], []);
      var i := 0;
      while i < |headers|
        invariant 0 <= i <= |headers|
        invariant h < |myDiagnostics.lists|
        invariant entryKeys <= dependenciesData.Keys
        invariant documentsData == old(documentsData)
        invariant IncludesSpec(env, Store(CurrentGraph(), myDiagnostics), fileUri, data, h, headers, i, inclusions, dependencies)
                  == pass
      {
        CardinalityMonotone(env.readable, entryKeys, dependenciesData.Keys);
        IncludesUnfold(env, Store(CurrentGraph(), myDiagnostics), fileUri, data, h, headers, i, inclusions, dependencies);
        var inclusion, dependency;
        inclusion, dependency, myDiagnostics := ProcessInclusion(env, fileUri, data, h, headers[i], myDiagnostics);
        inclusions := inclusions + inclusion;
        dependencies := dependencies + dependency;
        i := i + 1;
      }
      assert pass == Pass(Store(CurrentGraph(), myDiagnostics), inclusions, dependencies);
      RemoveDependencies(Dropped(data.dependencies, dependencies));
      parsed := data.(resolvedInclusions := inclusions, dependencies := dependencies,
                      callables := results.callables, values := results.values);
      diagnosticsOut := myDiagnostics;
    }

    /** The `forEach` callback of `parseFile` for one directive (lines
        268-302); it returns the inclusion and the dependency it records,
        if any. */
    method ProcessInclusion(env: Env, fileUri: Uri, data: DocumentData, h: nat, header: InclusionDescriptor,
                            diagnostics: DiagnosticsMap)
      returns (inclusion: seq<ResolvedInclusion>, dependency: seq<Uri>, diagnosticsOut: DiagnosticsMap)
      requires h < |diagnostics.lists|
      modifies this, dependencyManager
      ensures documentsData == old(documentsData)
      ensures Step(Store(CurrentGraph(), diagnosticsOut), inclusion, dependency)
              == IncludeStep(env, Store(old(CurrentGraph()), diagnostics), fileUri, data, h, header)
      decreases Unexplored(env, Store(CurrentGraph(), diagnostics)), 0, 1
    {
      diagnosticsOut := diagnostics;
      inclusion, dependency := [], [];
      var localTo := if header.isLocal then Some(Dirname(fileUri)) else None;
      var resolvedUri := ResolveIncludePath(header.filename, fileUri, localTo, env.includePaths, env.expand, env.readable);
      if resolvedUri == Some(data.uri) {
        return;
      }
      if resolvedUri.Some? {
        var u := resolvedUri.value;
        var known := dependencyManager.HasDependency(u);
        if !known {
          dependencyManager.AddReference(u);
        } else if u !in data.dependencies {
          dependencyManager.AddReference(u);
        }
        dependency := [u];
        diagnosticsOut := LoadInclusion(env, u, diagnostics);
        inclusion := [ResolvedInclusion(u, header)];
      } else {
        diagnosticsOut := Push(diagnostics, h, [UnresolvedDiagnostic(header)]);
      }
    }

    /** Lines 282-293: a dependency without a cached record gets an empty
        one, then its file is read and parsed as a dependency and the record
        replaced; a failed read leaves the empty record. */
    method LoadInclusion(env: Env, u: Uri, diagnostics: DiagnosticsMap) returns (diagnosticsOut: DiagnosticsMap)
      requires u in env.readable
      modifies this, dependencyManager
      ensures documentsData == old(documentsData)
      ensures Store(CurrentGraph(), diagnosticsOut) == LoadDependency(env, Store(old(CurrentGraph()), diagnostics), u)
      decreases Unexplored(env, Store(CurrentGraph(), diagnostics)), 0, 0
    {
      diagnosticsOut := diagnostics;
      if u !in dependenciesData {
        var depData := NewDocumentData(u);
        dependenciesData := dependenciesData[u := depData];
        if u in env.files {
          assert dependenciesData.Keys == old(dependenciesData).Keys + {u};
          CardinalityShrinks(env.readable, old(dependenciesData).Keys, u);
          assert Unexplored(env, Store(CurrentGraph(), diagnostics)) < Unexplored(env, Store(old(CurrentGraph()), diagnostics));
          depData, diagnosticsOut := ParseFile(env, u, env.files[u], depData, diagnostics, true);
          dependenciesData := dependenciesData[u := depData];
        }
      }
    }

    /** `reparseDocument` (lines 122-141): reparses open document `uri`,
        prunes the graph over the open documents' records and returns the
        diagnostics it sends, in sending order. */
    method ReparseDocument(env: Env, prune: Prune, uri: Uri, text: string, open: seq<Uri>)
      returns (published: seq<(Uri, seq<Diagnostic>)>)
      modifies this, dependencyManager
      ensures Reparsed(documentsData, CurrentGraph(), published)
              == ReparseSpec(env, prune, old(documentsData), old(CurrentGraph()), uri, text, open)
    {
      var data := if uri in documentsData then documentsData[uri] else NewDocumentData(uri);
      documentsData := documentsData[uri := data];
      var diagnostics;
      data, diagnostics := ParseFile(env, uri, text, data, EmptyDiagnostics(), false);
      ReparseUnfold(env, prune, old(documentsData), old(CurrentGraph()), uri, text, open,
                    Parsed(Store(CurrentGraph(), diagnostics), data));
      Overwrite(old(documentsData), uri, if uri in old(documentsData) then old(documentsData)[uri] else NewDocumentData(uri), data);
      documentsData := documentsData[uri := data];
      RemoveUnreachable(prune, open);
      published := Publish(diagnostics);
    }

    /** The `onDidClose` handler (lines 210-220) for document `uri`; `open`
        holds the documents still open. */
    method OnDidClose(prune: Prune, uri: Uri, open: seq<Uri>)
      modifies this, dependencyManager
      ensures Closed(documentsData, CurrentGraph())
              == CloseSpec(prune, old(documentsData), old(CurrentGraph()), uri, open)
    {
      if uri in documentsData {
        var docData := documentsData[uri];
        RemoveDependencies(docData.dependencies);
        RemoveUnreachable(prune, open);
        documentsData := documentsData - {uri};
      }
    }
  }
}
