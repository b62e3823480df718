/** The read-only request handlers of the language server over the records it
    keeps (src/server/server.ts): go-to-definition on an include directive,
    document links to the API reference and the document's symbols. Each
    handler answers nothing for a document the editor has not open or that
    has no record yet. */
module Queries {
  import opened Common
  import opened Types
  import opened ParseSpec
  import opened ParseProperties

  /** Whether `position` is on the directive's first line, strictly inside
      its character span (lines 151-153). */
  predicate OnDirective(position: Position, directive: InclusionDescriptor) {
    && position.line == directive.start.line
    && directive.start.character < position.character < directive.end.character
  }

  /** The first character of the first line of `uri`. */
  function FileHead(uri: Uri): Location {
    Location(uri, Range(Position(0, 0), Position(0, 1)))
  }

  /** Reference definition of `inclusionLocation`. */
  function InclusionAt(inclusions: seq<ResolvedInclusion>, position: Position): Option<Location> {
    if inclusions == [] then None
    else if OnDirective(position, inclusions[0].descriptor) then Some(FileHead(inclusions[0].uri))
    else InclusionAt(inclusions[1..], position)
  }

  /** `k` is the first inclusion whose directive holds `position`. */
  ghost predicate FirstOn(inclusions: seq<ResolvedInclusion>, position: Position, k: nat) {
    && k < |inclusions|
    && OnDirective(position, inclusions[k].descriptor)
    && forall j :: 0 <= j < k ==> !OnDirective(position, inclusions[j].descriptor)
  }

  /** A definition query on an include directive leads to the head of the
      file of the first inclusion whose directive holds the position, and to
      nothing when no directive holds it. */
  lemma {:induction false} InclusionAtFirst(inclusions: seq<ResolvedInclusion>, position: Position)
    ensures InclusionAt(inclusions, position).None? <==>
            forall k :: 0 <= k < |inclusions| ==> !OnDirective(position, inclusions[k].descriptor)
    ensures InclusionAt(inclusions, position).Some? ==>
            exists k: nat :: FirstOn(inclusions, position, k) && InclusionAt(inclusions, position) == Some(FileHead(inclusions[k].uri))
  {
    if inclusions != [] && !OnDirective(position, inclusions[0].descriptor) {
      var rest := inclusions[1..];
      InclusionAtFirst(rest, position);
      assert forall k :: 0 < k < |inclusions| ==> inclusions[k] == rest[k - 1];
      if InclusionAt(rest, position).Some? {
        var k: nat :| FirstOn(rest, position, k) && InclusionAt(rest, position) == Some(FileHead(rest[k].uri));
        assert inclusions[k + 1] == rest[k];
        forall j | 0 <= j < k + 1
          ensures !OnDirective(position, inclusions[j].descriptor)
        {
          if j > 0 {
            assert inclusions[j] == rest[j - 1];
          }
        }
        assert FirstOn(inclusions, position, k + 1);
      }
    } else if inclusions != [] {
      assert FirstOn(inclusions, position, 0);
    }
  }

  /** `inclusionLocation` (lines 149-158): the loop over the inclusions,
      returning at the first match. */
  method InclusionLocation(inclusions: seq<ResolvedInclusion>, position: Position) returns (location: Option<Location>)
    ensures location == InclusionAt(inclusions, position)
  {
    for i := 0 to |inclusions|
      invariant InclusionAt(inclusions[i..], position) == InclusionAt(inclusions, position)
    {
      assert inclusions[i..][1..] == inclusions[i + 1..];
      if OnDirective(position, inclusions[i].descriptor) {
        return Some(FileHead(inclusions[i].uri));
      }
    }
    assert inclusions[|inclusions|..] == [];
    return None;
  }

  /** The record of `uri` when the editor has it open and the server has
      parsed it (the guard every handler starts with). */
  function OpenRecord(documentsData: map<Uri, DocumentData>, open: seq<Uri>, uri: Uri): (r: Option<DocumentData>)
    ensures r.Some? <==> uri in open && uri in documentsData
    ensures r.Some? ==> r.value == documentsData[uri]
  {
    if uri in open && uri in documentsData then Some(documentsData[uri]) else None
  }

  /** The `onDefinition` handler (lines 143-163); `doDefinition` stands for
      `Parser.doDefinition` on the document's text and the cached
      dependency records. */
  function OnDefinition(documentsData: map<Uri, DocumentData>, open: seq<Uri>, uri: Uri, position: Position,
                        doDefinition: (DocumentData, Position) -> Option<Location>): (r: Option<Location>)
    ensures OpenRecord(documentsData, open, uri).None? ==> r.None?
    ensures OpenRecord(documentsData, open, uri).Some? ==>
              var inclusions := documentsData[uri].resolvedInclusions;
              r == if InclusionAt(inclusions, position).Some? then InclusionAt(inclusions, position)
                   else doDefinition(documentsData[uri], position)
  {
    match OpenRecord(documentsData, open, uri)
    case None => None
    case Some(data) =>
      var location := InclusionAt(data.resolvedInclusions, position);
      if location.Some? then location else doDefinition(data, position)
  }

  /** The base of every link target (line 100). */
  const ApiBase := "https://amxx-bg.info/api/"

  /** `filename.replace(/\.inc$/, '')`: one trailing ".inc" removed. */
  function StripInc(filename: string): (r: string)
    ensures EndsWith(filename, ".inc") ==> r + ".inc" == filename
    ensures !EndsWith(filename, ".inc") ==> r == filename
  {
    if EndsWith(filename, ".inc") then filename[..|filename| - 4] else filename
  }

  /** Stripping undoes appending ".inc", and only one suffix goes. */
  lemma StripIncAppended(name: string)
    ensures StripInc(name + ".inc") == name
    ensures StripInc(name + ".inc.inc") == name + ".inc"
  {
    assert EndsWith(name + ".inc", ".inc");
    assert EndsWith(name + ".inc.inc", ".inc");
    assert (name + ".inc.inc")[..|name| + 4] == name + ".inc";
  }

  datatype DocumentLink = DocumentLink(range: Range, target: string)

  /** The link of one inclusion (lines 98-100). */
  function LinkOf(inc: ResolvedInclusion): (r: DocumentLink)
    ensures r.range == Range(inc.descriptor.start, inc.descriptor.end)
    ensures StartsWith(r.target, ApiBase) && r.target[|ApiBase|..] == StripInc(inc.descriptor.filename)
  {
    var target := ApiBase + StripInc(inc.descriptor.filename);
    assert target[..|ApiBase|] == ApiBase && target[|ApiBase|..] == StripInc(inc.descriptor.filename);
    DocumentLink(Range(inc.descriptor.start, inc.descriptor.end), target)
  }

  /** The `onDocumentLinks` handler (lines 90-104), `webApiLinks` being the
      synced `language.webApiLinks` setting. */
  function DocumentLinks(documentsData: map<Uri, DocumentData>, open: seq<Uri>, uri: Uri, webApiLinks: bool)
    : (r: Option<seq<DocumentLink>>)
    ensures r.Some? <==> OpenRecord(documentsData, open, uri).Some? && webApiLinks
    ensures r.Some? ==> |r.value| == |documentsData[uri].resolvedInclusions|
  {
    match OpenRecord(documentsData, open, uri)
    case None => None
    case Some(data) =>
      if webApiLinks then Some(seq(|data.resolvedInclusions|, k requires 0 <= k < |data.resolvedInclusions| => LinkOf(data.resolvedInclusions[k])))
      else None
  }

  /** Each link spans its directive and points at the API page named after
      the included file without its ".inc" extension. */
  lemma LinksTargets(documentsData: map<Uri, DocumentData>, open: seq<Uri>, uri: Uri, webApiLinks: bool, k: nat)
    requires DocumentLinks(documentsData, open, uri, webApiLinks).Some?
    requires k < |documentsData[uri].resolvedInclusions|
    ensures var d := documentsData[uri].resolvedInclusions[k].descriptor;
            var link := DocumentLinks(documentsData, open, uri, webApiLinks).value[k];
            && link.range == Range(d.start, d.end)
            && StartsWith(link.target, ApiBase)
            && (EndsWith(d.filename, ".inc") ==> link.target + ".inc" == ApiBase + d.filename)
            && (!EndsWith(d.filename, ".inc") ==> link.target == ApiBase + d.filename)
  {
    var d := documentsData[uri].resolvedInclusions[k].descriptor;
    var target := ApiBase + StripInc(d.filename);
    assert target[..|ApiBase|] == ApiBase;
    assert target + ".inc" == ApiBase + (StripInc(d.filename) + ".inc");
  }

  /** `SymbolKind.Function` of the language server protocol. */
  const FunctionKind := 12

  datatype SymbolInformation = SymbolInformation(name: string, location: Location, kind: nat)

  /** A callable as a function symbol located in document `uri`. */
  function SymbolOf(uri: Uri, c: CallableDescriptor): (r: SymbolInformation)
    ensures r.name == c.identifier && r.kind == FunctionKind
    ensures r.location == Location(uri, Range(c.start, c.end))
  {
    SymbolInformation(c.identifier, Location(uri, Range(c.start, c.end)), FunctionKind)
  }

  /** The `onDocumentSymbol` handler (lines 174-185). */
  function DocumentSymbols(documentsData: map<Uri, DocumentData>, open: seq<Uri>, uri: Uri)
    : (r: Option<seq<SymbolInformation>>)
    ensures r.Some? <==> OpenRecord(documentsData, open, uri).Some?
    ensures r.Some? ==> |r.value| == |documentsData[uri].callables|
  {
    match OpenRecord(documentsData, open, uri)
    case None => None
    case Some(data) => Some(seq(|data.callables|, k requires 0 <= k < |data.callables| => SymbolOf(uri, data.callables[k])))
  }

  /** After a reparse of an open document, its symbols are the callables the
      parser reported, in order, as functions located in the document. */
  lemma SymbolsAfterReparse(env: Env, prune: Prune, documentsData: map<Uri, DocumentData>, graph: Graph,
                            uri: Uri, text: string, open: seq<Uri>, k: nat)
    requires forall u :: u in documentsData ==> documentsData[u].uri == u
    requires uri in open
    requires k < |env.parse(uri, text, false).callables|
    ensures var docs := ReparseSpec(env, prune, documentsData, graph, uri, text, open).documentsData;
            var c := env.parse(uri, text, false).callables[k];
            && DocumentSymbols(docs, open, uri).Some?
            && |DocumentSymbols(docs, open, uri).value| == |env.parse(uri, text, false).callables|
            && DocumentSymbols(docs, open, uri).value[k]
               == SymbolInformation(c.identifier, Location(uri, Range(c.start, c.end)), FunctionKind)
  {
    ReparseRecord(env, prune, documentsData, graph, uri, text, open);
  }

  /** After a reparse, a definition query on a position no resolved
      directive holds falls through to the symbol lookup. */
  lemma DefinitionFallsThrough(env: Env, prune: Prune, documentsData: map<Uri, DocumentData>, graph: Graph,
                               uri: Uri, text: string, open: seq<Uri>, position: Position,
                               doDefinition: (DocumentData, Position) -> Option<Location>)
    requires forall u :: u in documentsData ==> documentsData[u].uri == u
    requires uri in open
    requires forall h :: h in env.parse(uri, text, false).headerInclusions ==> !OnDirective(position, h)
    ensures var docs := ReparseSpec(env, prune, documentsData, graph, uri, text, open).documentsData;
            OnDefinition(docs, open, uri, position, doDefinition) == doDefinition(docs[uri], position)
  {
    ReparseRecord(env, prune, documentsData, graph, uri, text, open);
    var headers := env.parse(uri, text, false).headerInclusions;
    var incs := ResolvedOf(env, uri, uri, headers);
    ResolvedFrom(env, uri, uri, headers);
    InclusionAtFirst(incs, position);
  }
}
