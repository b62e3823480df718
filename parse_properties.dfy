/** What the reparse pass guarantees: the record it leaves for the parsed
    file, the diagnostics it collects and publishes, that a dependency file
    is parsed at most once per pass, and how references are taken and
    released. */
module ParseProperties {
  import opened Common
  import opened Types
  import opened IncludeResolver
  import opened DependencyManager
  import opened ParseSpec

  /** Reference definition: the include directives of `headers`, as seen
      from `fileUri`, that resolve to a file other than `self`, in source order. */
  function ResolvedOf(env: Env, fileUri: Uri, self: Uri, headers: seq<InclusionDescriptor>): (r: seq<ResolvedInclusion>)
    ensures |r| <= |headers|
    ensures forall k :: 0 <= k < |r| ==> r[k].uri != self && r[k].uri in env.readable
  {
    if headers == [] then []
    else
      var resolved := ResolveHeader(env, fileUri, headers[0]);
      (if resolved.Some? && resolved.value != self then [ResolvedInclusion(resolved.value, headers[0])] else [])
      + ResolvedOf(env, fileUri, self, headers[1..])
  }

  /** Every resolved inclusion comes from one of the directives. */
  lemma {:induction false} ResolvedFrom(env: Env, fileUri: Uri, self: Uri, headers: seq<InclusionDescriptor>)
    ensures forall inc :: inc in ResolvedOf(env, fileUri, self, headers) ==> inc.descriptor in headers
  {
    if headers != [] {
      ResolvedFrom(env, fileUri, self, headers[1..]);
    }
  }

  /** The URIs of a list of inclusions. */
  function Uris(incs: seq<ResolvedInclusion>): (r: seq<Uri>)
    ensures |r| == |incs| && forall k :: 0 <= k < |r| ==> r[k] == incs[k].uri
  {
    seq(|incs|, k requires 0 <= k < |incs| => incs[k].uri)
  }

  lemma UrisConcat(a: seq<ResolvedInclusion>, b: seq<ResolvedInclusion>)
    ensures Uris(a + b) == Uris(a) + Uris(b)
  {
    assert forall k :: 0 <= k < |a + b| ==> Uris(a + b)[k] == (Uris(a) + Uris(b))[k];
  }

  /** Reference definition: one diagnostic per directive that resolves to no file. */
  function UnresolvedOf(env: Env, fileUri: Uri, headers: seq<InclusionDescriptor>): (r: seq<Diagnostic>)
    ensures |r| <= |headers|
  {
    if headers == [] then []
    else
      (if ResolveHeader(env, fileUri, headers[0]).None? then [UnresolvedDiagnostic(headers[0])] else [])
      + UnresolvedOf(env, fileUri, headers[1..])
  }

  /** The directives from `i` on add exactly the resolved, non-self ones to
      the inclusions. */
  lemma {:induction false} IncludesCollects(env: Env, st: Store, fileUri: Uri, data: DocumentData, h: nat,
                                            headers: seq<InclusionDescriptor>, i: nat,
                                            inclusions: seq<ResolvedInclusion>, dependencies: seq<Uri>)
    requires i <= |headers|
    requires h < |st.diagnostics.lists|
    ensures IncludesSpec(env, st, fileUri, data, h, headers, i, inclusions, dependencies).inclusions
            == inclusions + ResolvedOf(env, fileUri, data.uri, headers[i..])
    decreases |headers| - i
  {
    if i == |headers| {
      assert headers[i..] == [];
    } else {
      var step := IncludeStep(env, st, fileUri, data, h, headers[i]);
      var rest := ResolvedOf(env, fileUri, data.uri, headers[i + 1..]);
      calc {
        IncludesSpec(env, st, fileUri, data, h, headers, i, inclusions, dependencies).inclusions;
        { IncludesUnfold(env, st, fileUri, data, h, headers, i, inclusions, dependencies); }
        IncludesSpec(env, step.store, fileUri, data, h, headers, i + 1,
                     inclusions + step.inclusion, dependencies + step.dependency).inclusions;
        { IncludesCollects(env, step.store, fileUri, data, h, headers, i + 1,
                           inclusions + step.inclusion, dependencies + step.dependency); }
        inclusions + step.inclusion + rest;
        inclusions + (step.inclusion + rest);
        { StepShape(env, st, fileUri, data, h, headers[i]);
          HeadersSplit(env, fileUri, data.uri, headers, i); }
        inclusions + ResolvedOf(env, fileUri, data.uri, headers[i..]);
      }
    }
  }

  /** The dependencies collected from `i` on are the URIs of the inclusions
      collected from `i` on. */
  lemma {:induction false} IncludesDepend(env: Env, st: Store, fileUri: Uri, data: DocumentData, h: nat,
                                          headers: seq<InclusionDescriptor>, i: nat,
                                          inclusions: seq<ResolvedInclusion>, dependencies: seq<Uri>)
    requires i <= |headers|
    requires h < |st.diagnostics.lists|
    requires dependencies == Uris(inclusions)
    ensures var r := IncludesSpec(env, st, fileUri, data, h, headers, i, inclusions, dependencies);
            r.dependencies == Uris(r.inclusions)
    decreases |headers| - i
  {
    if i < |headers| {
      var step := IncludeStep(env, st, fileUri, data, h, headers[i]);
      IncludesUnfold(env, st, fileUri, data, h, headers, i, inclusions, dependencies);
      StepShape(env, st, fileUri, data, h, headers[i]);
      UrisConcat(inclusions, step.inclusion);
      IncludesDepend(env, step.store, fileUri, data, h, headers, i + 1,
                     inclusions + step.inclusion, dependencies + step.dependency);
    }
  }

  /** What one directive adds to the inclusions and the dependencies. */
  lemma StepShape(env: Env, st: Store, fileUri: Uri, data: DocumentData, h: nat, header: InclusionDescriptor)
    requires h < |st.diagnostics.lists|
    ensures var step := IncludeStep(env, st, fileUri, data, h, header);
            var resolved := ResolveHeader(env, fileUri, header);
            && step.inclusion == (if resolved.Some? && resolved.value != data.uri
                                  then [ResolvedInclusion(resolved.value, header)] else [])
            && step.dependency == Uris(step.inclusion)
  {
  }

  /** A directive that resolves to the file itself (line 271) changes
      nothing and records nothing. */
  lemma SelfInclude(env: Env, st: Store, fileUri: Uri, data: DocumentData, h: nat, header: InclusionDescriptor)
    requires h < |st.diagnostics.lists|
    requires ResolveHeader(env, fileUri, header) == Some(data.uri)
    ensures IncludeStep(env, st, fileUri, data, h, header) == Step(st, [], [])
  {
  }

  lemma HeadersSplit(env: Env, fileUri: Uri, self: Uri, headers: seq<InclusionDescriptor>, i: nat)
    requires i < |headers|
    ensures var resolved := ResolveHeader(env, fileUri, headers[i]);
            && ResolvedOf(env, fileUri, self, headers[i..])
               == (if resolved.Some? && resolved.value != self then [ResolvedInclusion(resolved.value, headers[i])] else [])
                  + ResolvedOf(env, fileUri, self, headers[i + 1..])
            && UnresolvedOf(env, fileUri, headers[i..])
               == (if resolved.None? then [UnresolvedDiagnostic(headers[i])] else [])
                  + UnresolvedOf(env, fileUri, headers[i + 1..])
  {
    assert headers[i..][0] == headers[i];
    assert headers[i..][1..] == headers[i + 1..];
  }

  /** After `parseFile` the record is replaced (lines 262 and 305-310): its
      inclusions are exactly the resolved, non-self directives in source
      order, its dependencies their URIs, and its symbols the parser's. */
  lemma ParseRecord(env: Env, st: Store, fileUri: Uri, content: string, data: DocumentData, isDependency: bool)
    ensures var results := env.parse(fileUri, content, isDependency);
            var r := ParseFileSpec(env, st, fileUri, content, data, isDependency).data;
            && r.uri == data.uri
            && r.resolvedInclusions == ResolvedOf(env, fileUri, data.uri, results.headerInclusions)
            && r.dependencies == Uris(r.resolvedInclusions)
            && r.callables == results.callables
            && r.values == results.values
  {
    var h := |st.diagnostics.lists|;
    var results := env.parse(fileUri, content, isDependency);
    var diagnostics := Push(SetFresh(st.diagnostics, data.uri), h, results.diagnostics);
    IncludesCollects(env, Store(st.graph, diagnostics), fileUri, data, h, results.headerInclusions, 0, [], []);
    IncludesDepend(env, Store(st.graph, diagnostics), fileUri, data, h, results.headerInclusions, 0, [], []);
    assert results.headerInclusions[0..] == results.headerInclusions;
  }

  /** `after` keeps every array of `before` except the one at `except`, and
      the key order of `before` is a prefix of that of `after`. */
  ghost predicate Extends(before: DiagnosticsMap, after: DiagnosticsMap, except: int) {
    && |before.lists| <= |after.lists|
    && (forall k :: 0 <= k < |before.lists| && k != except ==> after.lists[k] == before.lists[k])
    && before.order <= after.order
  }

  /** The arrays of `after` from index `from` on belong to readable files that
      had no cached record in `before`, one array per file. */
  ghost predicate NewOwners(env: Env, before: Store, after: Store, from: nat) {
    && (forall k :: from <= k < |after.diagnostics.lists| ==>
          after.diagnostics.lists[k].owner !in before.graph.dependenciesData
          && after.diagnostics.lists[k].owner in env.files)
    && (forall j, k :: from <= j < k < |after.diagnostics.lists| ==>
          after.diagnostics.lists[j].owner != after.diagnostics.lists[k].owner)
  }

  /** `NewOwners`, and each such file has a cached record in `after`. */
  ghost predicate FreshlyCached(env: Env, before: Store, after: Store, from: nat) {
    && NewOwners(env, before, after, from)
    && (forall k :: from <= k < |after.diagnostics.lists| ==>
          after.diagnostics.lists[k].owner in after.graph.dependenciesData)
  }

  lemma PrefixTransitive(a: seq<Uri>, b: seq<Uri>, c: seq<Uri>)
    requires a <= b && b <= c
    ensures a <= c
  {
    assert forall k :: 0 <= k < |a| ==> a[k] == b[k] == c[k];
  }

  lemma ExtendsTransitive(d0: DiagnosticsMap, d1: DiagnosticsMap, d2: DiagnosticsMap, e1: int, e2: int, e: int)
    requires Extends(d0, d1, e1) && Extends(d1, d2, e2)
    requires e1 == e || !(0 <= e1 < |d0.lists|)
    requires e2 == e || !(0 <= e2 < |d0.lists|)
    ensures Extends(d0, d2, e)
  {
    PrefixTransitive(d0.order, d1.order, d2.order);
  }

  lemma FreshlyCachedTransitive(env: Env, s0: Store, s1: Store, s2: Store, h: nat)
    requires FreshlyCached(env, s0, s1, |s0.diagnostics.lists|)
    requires FreshlyCached(env, s1, s2, |s1.diagnostics.lists|)
    requires s0.graph.dependenciesData.Keys <= s1.graph.dependenciesData.Keys <= s2.graph.dependenciesData.Keys
    requires Extends(s1.diagnostics, s2.diagnostics, h) && |s0.diagnostics.lists| <= |s1.diagnostics.lists|
    requires h < |s0.diagnostics.lists|
    ensures FreshlyCached(env, s0, s2, |s0.diagnostics.lists|)
  {
    var n0, n1 := |s0.diagnostics.lists|, |s1.diagnostics.lists|;
    var l1, l2 := s1.diagnostics.lists, s2.diagnostics.lists;
    forall k | n0 <= k < |l2|
      ensures l2[k].owner !in s0.graph.dependenciesData && l2[k].owner in env.files
      ensures l2[k].owner in s2.graph.dependenciesData
    {
      if k < n1 {
        assert l2[k] == l1[k];
      }
    }
    forall j, k | n0 <= j < k < |l2|
      ensures l2[j].owner != l2[k].owner
    {
      if k < n1 {
        assert l2[k] == l1[k] && l2[j] == l1[j];
      } else if j < n1 {
        assert l2[j] == l1[j];
        assert l1[j].owner in s1.graph.dependenciesData;
      }
    }
  }

  /** A pass keeps every diagnostics array that existed before it and only
      appends to the key order. */
  lemma {:induction false} ParseKeeps(env: Env, st: Store, fileUri: Uri, content: string, data: DocumentData,
                                      isDependency: bool)
    ensures Extends(st.diagnostics, ParseFileSpec(env, st, fileUri, content, data, isDependency).store.diagnostics, -1)
    decreases Unexplored(env, st), 1, 0, 0
  {
    var h := |st.diagnostics.lists|;
    var results := env.parse(fileUri, content, isDependency);
    var d0 := Push(SetFresh(st.diagnostics, data.uri), h, results.diagnostics);
    var st0 := Store(st.graph, d0);
    IncludesKeeps(env, st0, fileUri, data, h, results.headerInclusions, 0, [], []);
    var pass := IncludesSpec(env, st0, fileUri, data, h, results.headerInclusions, 0, [], []);
    assert Extends(st.diagnostics, d0, -1);
    ExtendsTransitive(st.diagnostics, d0, pass.store.diagnostics, -1, h, -1);
  }

  lemma {:induction false} IncludesKeeps(env: Env, st: Store, fileUri: Uri, data: DocumentData, h: nat,
                                         headers: seq<InclusionDescriptor>, i: nat,
                                         inclusions: seq<ResolvedInclusion>, dependencies: seq<Uri>)
    requires i <= |headers|
    requires h < |st.diagnostics.lists|
    ensures Extends(st.diagnostics, IncludesSpec(env, st, fileUri, data, h, headers, i, inclusions, dependencies).store.diagnostics, h)
    decreases Unexplored(env, st), 0, |headers| - i, 0
  {
    if i < |headers| {
      var step := IncludeStep(env, st, fileUri, data, h, headers[i]);
      StepKeeps(env, st, fileUri, data, h, headers[i]);
      CardinalityMonotone(env.readable, st.graph.dependenciesData.Keys, step.store.graph.dependenciesData.Keys);
      IncludesKeeps(env, step.store, fileUri, data, h, headers, i + 1,
                    inclusions + step.inclusion, dependencies + step.dependency);
      IncludesUnfold(env, st, fileUri, data, h, headers, i, inclusions, dependencies);
      var r := IncludesSpec(env, step.store, fileUri, data, h, headers, i + 1,
                            inclusions + step.inclusion, dependencies + step.dependency).store;
      ExtendsTransitive(st.diagnostics, step.store.diagnostics, r.diagnostics, h, h, h);
    }
  }

  lemma {:induction false} StepKeeps(env: Env, st: Store, fileUri: Uri, data: DocumentData, h: nat,
                                     header: InclusionDescriptor)
    requires h < |st.diagnostics.lists|
    ensures Extends(st.diagnostics, IncludeStep(env, st, fileUri, data, h, header).store.diagnostics, h)
    decreases Unexplored(env, st), 0, 0, 1
  {
    var resolved := ResolveHeader(env, fileUri, header);
    if resolved != Some(data.uri) && resolved.Some? {
      var u := resolved.value;
      var counted := Store(st.graph.(refCount := TakeReference(st.graph.refCount, u, data.dependencies)), st.diagnostics);
      assert Unexplored(env, counted) == Unexplored(env, st);
      LoadKeeps(env, counted, u);
    }
  }

  lemma {:induction false} LoadKeeps(env: Env, st: Store, u: Uri)
    requires u in env.readable
    ensures Extends(st.diagnostics, LoadDependency(env, st, u).diagnostics, -1)
    decreases Unexplored(env, st), 0, 0, 0
  {
    if u !in st.graph.dependenciesData && u in env.files {
      PlaceholderShrinks(env, st, u);
      ParseKeeps(env, WithPlaceholder(st, u), u, env.files[u], NewDocumentData(u), true);
      LoadUnfold(env, st, u);
    }
  }

  /** One directive's effect on the file's own array: an unresolved one
      appends its diagnostic (lines 295-302); the others leave it alone. */
  lemma StepOwn(env: Env, st: Store, fileUri: Uri, data: DocumentData, h: nat, header: InclusionDescriptor)
    requires h < |st.diagnostics.lists|
    ensures var own := st.diagnostics.lists[h];
            IncludeStep(env, st, fileUri, data, h, header).store.diagnostics.lists[h]
            == DiagnosticList(own.owner, own.items
                              + if ResolveHeader(env, fileUri, header).None? then [UnresolvedDiagnostic(header)] else [])
  {
    var resolved := ResolveHeader(env, fileUri, header);
    if resolved != Some(data.uri) && resolved.Some? {
      var u := resolved.value;
      var counted := Store(st.graph.(refCount := TakeReference(st.graph.refCount, u, data.dependencies)), st.diagnostics);
      LoadKeeps(env, counted, u);
    }
  }

  lemma {:induction false} IncludesOwn(env: Env, st: Store, fileUri: Uri, data: DocumentData, h: nat,
                                       headers: seq<InclusionDescriptor>, i: nat,
                                       inclusions: seq<ResolvedInclusion>, dependencies: seq<Uri>)
    requires i <= |headers|
    requires h < |st.diagnostics.lists|
    ensures var own := st.diagnostics.lists[h];
            IncludesSpec(env, st, fileUri, data, h, headers, i, inclusions, dependencies).store.diagnostics.lists[h]
            == DiagnosticList(own.owner, own.items + UnresolvedOf(env, fileUri, headers[i..]))
    decreases |headers| - i
  {
    if i == |headers| {
      assert headers[i..] == [];
    } else {
      var step := IncludeStep(env, st, fileUri, data, h, headers[i]);
      var own := st.diagnostics.lists[h];
      var added := if ResolveHeader(env, fileUri, headers[i]).None? then [UnresolvedDiagnostic(headers[i])] else [];
      var rest := UnresolvedOf(env, fileUri, headers[i + 1..]);
      calc {
        IncludesSpec(env, st, fileUri, data, h, headers, i, inclusions, dependencies).store.diagnostics.lists[h];
        { IncludesUnfold(env, st, fileUri, data, h, headers, i, inclusions, dependencies); }
        IncludesSpec(env, step.store, fileUri, data, h, headers, i + 1,
                     inclusions + step.inclusion, dependencies + step.dependency).store.diagnostics.lists[h];
        { IncludesOwn(env, step.store, fileUri, data, h, headers, i + 1,
                      inclusions + step.inclusion, dependencies + step.dependency);
          StepOwn(env, st, fileUri, data, h, headers[i]); }
        DiagnosticList(own.owner, own.items + added + rest);
        { assert own.items + added + rest == own.items + (added + rest);
          HeadersSplit(env, fileUri, data.uri, headers, i); }
        DiagnosticList(own.owner, own.items + UnresolvedOf(env, fileUri, headers[i..]));
      }
    }
  }

  /** The file's own array (lines 256-257 and 295-302): the parser's
      diagnostics followed by one per unresolved directive, in order. */
  lemma ParseOwn(env: Env, st: Store, fileUri: Uri, content: string, data: DocumentData, isDependency: bool)
    ensures var results := env.parse(fileUri, content, isDependency);
            ParseFileSpec(env, st, fileUri, content, data, isDependency).store.diagnostics.lists[|st.diagnostics.lists|]
            == DiagnosticList(data.uri, results.diagnostics + UnresolvedOf(env, fileUri, results.headerInclusions))
  {
    var h := |st.diagnostics.lists|;
    var results := env.parse(fileUri, content, isDependency);
    var headers := results.headerInclusions;
    var d0 := Push(SetFresh(st.diagnostics, data.uri), h, results.diagnostics);
    assert d0.lists[h] == DiagnosticList(data.uri, [] + results.diagnostics);
    calc {
      ParseFileSpec(env, st, fileUri, content, data, isDependency).store.diagnostics.lists[h];
      IncludesSpec(env, Store(st.graph, d0), fileUri, data, h, headers, 0, [], []).store.diagnostics.lists[h];
      { IncludesOwn(env, Store(st.graph, d0), fileUri, data, h, headers, 0, [], []); }
      DiagnosticList(data.uri, [] + results.diagnostics + UnresolvedOf(env, fileUri, headers[0..]));
      { assert headers[0..] == headers && [] + results.diagnostics == results.diagnostics; }
      DiagnosticList(data.uri, results.diagnostics + UnresolvedOf(env, fileUri, headers));
    }
  }

  /** Lines 282-293: every array the nested parses of a pass create belongs to
      a distinct readable file that had no cached record when the pass began,
      so no dependency is parsed twice in one pass and a cached one is not
      parsed at all; for a dependency's own parse those files are all cached
      at its end. */
  lemma {:induction false} ParseFresh(env: Env, st: Store, fileUri: Uri, content: string, data: DocumentData,
                                      isDependency: bool)
    ensures var r := ParseFileSpec(env, st, fileUri, content, data, isDependency).store;
            && NewOwners(env, st, r, |st.diagnostics.lists| + 1)
            && (data.dependencies == [] ==> FreshlyCached(env, st, r, |st.diagnostics.lists| + 1))
    decreases Unexplored(env, st), 1, 0, 0
  {
    var h := |st.diagnostics.lists|;
    var results := env.parse(fileUri, content, isDependency);
    var d0 := Push(SetFresh(st.diagnostics, data.uri), h, results.diagnostics);
    var st0 := Store(st.graph, d0);
    IncludesFresh(env, st0, fileUri, data, h, results.headerInclusions, 0, [], []);
    var pass := IncludesSpec(env, st0, fileUri, data, h, results.headerInclusions, 0, [], []);
    if data.dependencies == [] {
      assert Dropped(data.dependencies, pass.dependencies) == [];
    }
  }

  lemma {:induction false} IncludesFresh(env: Env, st: Store, fileUri: Uri, data: DocumentData, h: nat,
                                         headers: seq<InclusionDescriptor>, i: nat,
                                         inclusions: seq<ResolvedInclusion>, dependencies: seq<Uri>)
    requires i <= |headers|
    requires h < |st.diagnostics.lists|
    ensures FreshlyCached(env, st, IncludesSpec(env, st, fileUri, data, h, headers, i, inclusions, dependencies).store,
                          |st.diagnostics.lists|)
    decreases Unexplored(env, st), 0, |headers| - i, 0
  {
    if i < |headers| {
      var step := IncludeStep(env, st, fileUri, data, h, headers[i]);
      StepFresh(env, st, fileUri, data, h, headers[i]);
      CardinalityMonotone(env.readable, st.graph.dependenciesData.Keys, step.store.graph.dependenciesData.Keys);
      IncludesFresh(env, step.store, fileUri, data, h, headers, i + 1,
                    inclusions + step.inclusion, dependencies + step.dependency);
      IncludesKeeps(env, step.store, fileUri, data, h, headers, i + 1,
                    inclusions + step.inclusion, dependencies + step.dependency);
      IncludesUnfold(env, st, fileUri, data, h, headers, i, inclusions, dependencies);
      var r := IncludesSpec(env, step.store, fileUri, data, h, headers, i + 1,
                            inclusions + step.inclusion, dependencies + step.dependency).store;
      FreshlyCachedTransitive(env, st, step.store, r, h);
    }
  }

  lemma {:induction false} StepFresh(env: Env, st: Store, fileUri: Uri, data: DocumentData, h: nat,
                                     header: InclusionDescriptor)
    requires h < |st.diagnostics.lists|
    ensures FreshlyCached(env, st, IncludeStep(env, st, fileUri, data, h, header).store, |st.diagnostics.lists|)
    decreases Unexplored(env, st), 0, 0, 1
  {
    var resolved := ResolveHeader(env, fileUri, header);
    if resolved != Some(data.uri) && resolved.Some? {
      var u := resolved.value;
      var counted := Store(st.graph.(refCount := TakeReference(st.graph.refCount, u, data.dependencies)), st.diagnostics);
      assert Unexplored(env, counted) == Unexplored(env, st);
      LoadFresh(env, counted, u);
    }
  }

  lemma {:induction false} LoadFresh(env: Env, st: Store, u: Uri)
    requires u in env.readable
    ensures FreshlyCached(env, st, LoadDependency(env, st, u), |st.diagnostics.lists|)
    decreases Unexplored(env, st), 0, 0, 0
  {
    if u !in st.graph.dependenciesData && u in env.files {
      var cached := WithPlaceholder(st, u);
      PlaceholderShrinks(env, st, u);
      ParseFresh(env, cached, u, env.files[u], NewDocumentData(u), true);
      ParseOwn(env, cached, u, env.files[u], NewDocumentData(u), true);
      LoadUnfold(env, st, u);
      var parsed := ParseFileSpec(env, cached, u, env.files[u], NewDocumentData(u), true);
      FreshAfterLoad(env, st, cached, parsed.store, LoadDependency(env, st, u), u);
    }
  }

  lemma FreshAfterLoad(env: Env, st: Store, cached: Store, parsed: Store, r: Store, u: Uri)
    requires u !in st.graph.dependenciesData && u in env.files
    requires cached.graph.dependenciesData.Keys == st.graph.dependenciesData.Keys + {u}
    requires |cached.diagnostics.lists| == |st.diagnostics.lists| < |parsed.diagnostics.lists|
    requires parsed.diagnostics.lists[|st.diagnostics.lists|].owner == u
    requires FreshlyCached(env, cached, parsed, |st.diagnostics.lists| + 1)
    requires r.diagnostics == parsed.diagnostics
    requires r.graph.dependenciesData.Keys == parsed.graph.dependenciesData.Keys + {u}
    ensures FreshlyCached(env, st, r, |st.diagnostics.lists|)
  {
    var h := |st.diagnostics.lists|;
    var lists := r.diagnostics.lists;
    forall k | h <= k < |lists|
      ensures lists[k].owner !in st.graph.dependenciesData && lists[k].owner in env.files
      ensures lists[k].owner in r.graph.dependenciesData
    {
    }
    forall j, k | h <= j < k < |lists|
      ensures lists[j].owner != lists[k].owner
    {
      if j == h {
        assert lists[k].owner !in cached.graph.dependenciesData;
      }
    }
  }

  /** Loading a dependency (lines 282-293): a cached file is not parsed
      again; a file that cannot be read keeps the empty record; otherwise it
      is parsed, and the first array the pass gains is its own. */
  lemma LoadOnce(env: Env, st: Store, u: Uri)
    requires u in env.readable
    ensures u in st.graph.dependenciesData ==> LoadDependency(env, st, u) == st
    ensures u !in st.graph.dependenciesData && u !in env.files ==>
              var r := LoadDependency(env, st, u);
              && r.graph.refCount == st.graph.refCount
              && r.graph.dependenciesData == st.graph.dependenciesData[u := NewDocumentData(u)]
              && r.diagnostics == st.diagnostics
    ensures u !in st.graph.dependenciesData && u in env.files ==>
              var r := LoadDependency(env, st, u);
              |st.diagnostics.lists| < |r.diagnostics.lists| && r.diagnostics.lists[|st.diagnostics.lists|].owner == u
  {
    if u !in st.graph.dependenciesData && u in env.files {
      ParseOwn(env, WithPlaceholder(st, u), u, env.files[u], NewDocumentData(u), true);
      LoadUnfold(env, st, u);
    }
  }

  /** Some entry sent for the diagnostics map names `u`. */
  ghost predicate Sends(d: DiagnosticsMap, u: Uri)
    requires d.Valid()
  {
    exists j :: 0 <= j < |Publish(d)| && Publish(d)[j].0 == u
  }

  /** No array created after the `k`-th belongs to the same file. */
  ghost predicate Latest(d: DiagnosticsMap, k: nat)
    requires k < |d.lists|
  {
    forall k' :: k < k' < |d.lists| ==> d.lists[k'].owner != d.lists[k].owner
  }

  /** The `j`-th entry sent is the latest array created for its file. */
  ghost predicate SendsLatest(d: DiagnosticsMap, j: nat)
    requires d.Valid() && j < |Publish(d)|
  {
    exists k :: 0 <= k < |d.lists| && Latest(d, k)
      && d.lists[k].owner == Publish(d)[j].0 && d.lists[k].items == Publish(d)[j].1
  }

  /** What `diagnostics.forEach(sendDiagnostics)` sends: one entry per key,
      every array's file among them, and for each file the array created by
      its last `diagnostics.set` in the pass. */
  lemma PublishLatest(d: DiagnosticsMap)
    requires d.Valid()
    ensures |Publish(d)| == |d.order|
    ensures forall j, k :: 0 <= j < k < |Publish(d)| ==> Publish(d)[j].0 != Publish(d)[k].0
    ensures forall k :: 0 <= k < |d.lists| ==> Sends(d, d.lists[k].owner)
    ensures forall j :: 0 <= j < |Publish(d)| ==> SendsLatest(d, j)
  {
    forall k | 0 <= k < |d.lists|
      ensures Sends(d, d.lists[k].owner)
    {
      var u := d.lists[k].owner;
      assert u in d.order;
      var j :| 0 <= j < |d.order| && d.order[j] == u;
      assert Publish(d)[j].0 == u;
    }
    forall j | 0 <= j < |Publish(d)|
      ensures SendsLatest(d, j)
    {
      var u := d.order[j];
      var k := d.index[u];
      assert d.lists[k].owner == Publish(d)[j].0 && Publish(d)[j].1 == d.lists[k].items;
      forall k' | k < k' < |d.lists|
        ensures d.lists[k'].owner != u
      {
        assert k' <= d.index[d.lists[k'].owner];
      }
      assert Latest(d, k);
    }
  }

  /** The first key a pass adds is the parsed file's own (line 256): the key
      order after `diagnostics.set` is a prefix of the final one. */
  lemma ParseOrder(env: Env, st: Store, fileUri: Uri, content: string, data: DocumentData, isDependency: bool)
    ensures SetFresh(st.diagnostics, data.uri).order
            <= ParseFileSpec(env, st, fileUri, content, data, isDependency).store.diagnostics.order
  {
    var h := |st.diagnostics.lists|;
    var results := env.parse(fileUri, content, isDependency);
    var d0 := Push(SetFresh(st.diagnostics, data.uri), h, results.diagnostics);
    IncludesKeeps(env, Store(st.graph, d0), fileUri, data, h, results.headerInclusions, 0, [], []);
  }

  /** `reparseDocument` (lines 122-141), the records: the document's record is
      replaced by the one the parse builds and no other record changes. */
  lemma ReparseRecord(env: Env, prune: Prune, documentsData: map<Uri, DocumentData>, graph: Graph,
                      uri: Uri, text: string, open: seq<Uri>)
    requires forall u :: u in documentsData ==> documentsData[u].uri == u
    ensures var results := env.parse(uri, text, false);
            var r := ReparseSpec(env, prune, documentsData, graph, uri, text, open).documentsData;
            && r.Keys == documentsData.Keys + {uri}
            && (forall u :: u in documentsData && u != uri ==> r[u] == documentsData[u])
            && (forall u :: u in r ==> r[u].uri == u)
            && r[uri].resolvedInclusions == ResolvedOf(env, uri, uri, results.headerInclusions)
            && r[uri].dependencies == Uris(r[uri].resolvedInclusions)
            && r[uri].callables == results.callables
            && r[uri].values == results.values
  {
    var data := if uri in documentsData then documentsData[uri] else NewDocumentData(uri);
    var st := Store(graph, EmptyDiagnostics());
    ReparseUnfold(env, prune, documentsData, graph, uri, text, open, ParseFileSpec(env, st, uri, text, data, false));
    ParseRecord(env, st, uri, text, data, false);
  }

  /** The entries sent for a diagnostics map whose first array and first key
      are `uri`'s and whose other arrays belong to distinct files with no
      cached record in `before`. */
  lemma SentEntries(env: Env, before: Store, after: Store, uri: Uri, items: seq<Diagnostic>)
    requires after.diagnostics.Valid()
    requires |after.diagnostics.lists| >= 1 && after.diagnostics.lists[0] == DiagnosticList(uri, items)
    requires [uri] <= after.diagnostics.order
    requires NewOwners(env, before, after, 1)
    ensures var p := Publish(after.diagnostics);
            && |p| >= 1 && p[0].0 == uri
            && (forall j, k :: 0 <= j < k < |p| ==> p[j].0 != p[k].0)
            && (forall k :: 0 < k < |p| ==> p[k].0 !in before.graph.dependenciesData && p[k].0 in env.files)
            && (uri in before.graph.dependenciesData || uri !in env.files ==> p[0].1 == items)
  {
    var d := after.diagnostics;
    PublishLatest(d);
    forall k | 0 < k < |d.order|
      ensures d.order[k] !in before.graph.dependenciesData && d.order[k] in env.files
    {
      assert d.order[k] != d.order[0] == uri;
      var i := d.index[d.order[k]];
      assert d.lists[i].owner == d.order[k];
    }
    if uri in before.graph.dependenciesData || uri !in env.files {
      var i := d.index[uri];
      assert d.lists[i].owner == uri;
    }
  }

  /** `reparseDocument` (lines 122-141), what is sent: the document's own
      entry first; the other entries belong to distinct readable files that
      had no cached record, each of which was parsed in this pass. When the
      document itself cannot be parsed again as a dependency (its file is
      cached, or cannot be read), what is sent for it is the parser's
      diagnostics followed by one per unresolved directive. */
  lemma ReparseSent(env: Env, prune: Prune, documentsData: map<Uri, DocumentData>, graph: Graph,
                    uri: Uri, text: string, open: seq<Uri>)
    requires forall u :: u in documentsData ==> documentsData[u].uri == u
    ensures var results := env.parse(uri, text, false);
            var p := ReparseSpec(env, prune, documentsData, graph, uri, text, open).published;
            && |p| >= 1 && p[0].0 == uri
            && (forall j, k :: 0 <= j < k < |p| ==> p[j].0 != p[k].0)
            && (forall k :: 0 < k < |p| ==> p[k].0 !in graph.dependenciesData && p[k].0 in env.files)
            && (uri in graph.dependenciesData || uri !in env.files ==>
                  p[0].1 == results.diagnostics + UnresolvedOf(env, uri, results.headerInclusions))
  {
    var results := env.parse(uri, text, false);
    var data := if uri in documentsData then documentsData[uri] else NewDocumentData(uri);
    var st := Store(graph, EmptyDiagnostics());
    var parsed := ParseFileSpec(env, st, uri, text, data, false);
    ReparseUnfold(env, prune, documentsData, graph, uri, text, open, parsed);
    ParseOwn(env, st, uri, text, data, false);
    ParseOrder(env, st, uri, text, data, false);
    ParseFresh(env, st, uri, text, data, false);
    assert SetFresh(EmptyDiagnostics(), data.uri).order == [uri];
    SentEntries(env, st, parsed.store, uri, results.diagnostics + UnresolvedOf(env, uri, results.headerInclusions));
  }

  /** A file included twice in one pass and absent from the previous list
      receives two references, not one. */
  lemma IncludedTwice(refCount: map<Uri, nat>, u: Uri, previous: seq<Uri>)
    requires u !in previous
    ensures Count(TakeReference(TakeReference(refCount, u, previous), u, previous), u) == Count(refCount, u) + 2
  {
    var once := TakeReference(refCount, u, previous);
    assert Count(once, u) == Count(refCount, u) + 1;
  }

  /** `Helpers.removeDependencies`: releasing `deps` lowers the count of `u`
      by its number of occurrences (not below zero); its node and its cached
      record go exactly when a release finds the count at one or less. */
  lemma {:induction false} ReleaseCounts(g: Graph, deps: seq<Uri>, u: Uri)
    ensures var r := ReleaseSpec(g, deps);
            var c := Count(g.refCount, u);
            var n := Occurrences(deps, u);
            && Count(r.refCount, u) == Max0(c - n)
            && (u in r.refCount <==> u in g.refCount && (n == 0 || c > n))
            && (u in r.dependenciesData <==> u in g.dependenciesData && !(u in g.refCount && n > 0 && c <= n))
    decreases |deps|
  {
    if deps != [] {
      ReleasedCounts(g.refCount, deps[0]);
      ReleaseCounts(ReleaseOne(g, deps[0]), deps[1..], u);
    }
  }

  /** The release at the end of `parseFile` (line 305): a dependency kept in
      the new list is untouched, and one dropped from it loses as many
      references as it had entries in the previous list. */
  lemma DroppedReleased(g: Graph, previous: seq<Uri>, current: seq<Uri>, u: Uri)
    ensures var r := ReleaseSpec(g, Dropped(previous, current));
            && (u in current ==> Count(r.refCount, u) == Count(g.refCount, u)
                                 && (u in r.dependenciesData <==> u in g.dependenciesData))
            && (u !in current ==> Count(r.refCount, u) == Max0(Count(g.refCount, u) - Occurrences(previous, u)))
  {
    ReleaseCounts(g, Dropped(previous, current), u);
    DroppedSpec(previous, current);
  }
}
