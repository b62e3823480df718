# AMX Mod X Pawn language support: include graph, queries and compile bookkeeping

This project models two parts of the Pawn language extension and proves
properties of the models.

**The language server** (src/server/server.ts):

- how an `#include` directive is resolved to a file;
- how a reparse walks the include graph, using the reference-counted
  dependency manager and the cache of dependency records;
- which diagnostics a pass collects and publishes;
- what closing a document releases;
- the read-only handlers for go-to-definition on a directive, document links
  and document symbols.

**The compile commands** (src/client/commands.ts):

- choosing the compiler executable, the output path and the argument list;
- grouping the compiler's reported problems by file;
- turning each problem into an editor diagnostic;
- keeping the editor's problem list in step with the latest compilation;
- choosing the final status.

Modules, in dependency order:

- `Common`: paths (`Join`, `Dirname`, `Basename`, `Extname`, `Stem`) and small sequence helpers.
- `Types`: positions, ranges, diagnostics, include descriptors and the per-document record `DocumentData`.
- `IncludeResolver`: `resolveIncludePath` as a loop (`ResolveIncludePath`), proved equal to the reference search `FirstReadable`.
- `DependencyManager`: the reference counts as a class over a `map`.
- `ParseSpec`: the whole reparse pass as mutually recursive functions (`ParseFileSpec`, `IncludesSpec`, `IncludeStep`, `LoadDependency`).
  - The pass's `Map<string, Diagnostic[]>` is modelled as an arena of arrays with the map's key order. Because of this, a second `set` on a key loses the pushes made through the earlier array.
  - Termination of include cycles: every nested parse caches one more readable file.
- `ParseProperties`: what the pass guarantees.
- `Server`: the class `LanguageServer`. Its fields are the two record maps and the dependency manager. Its methods `ParseFile`, `ProcessInclusion`, `LoadInclusion`, `ReparseDocument` and `OnDidClose` are proved to compute the `ParseSpec` functions.
- `Queries`: the request handlers.
- `Commands`: the compile-command bookkeeping. The editor's `DiagnosticCollection` is a class over a `map`.

The environment of a pass is a value (`ParseSpec.Env`):

- the set of readable paths (`accessSync`) and the readable file contents (`readFileSync`);
- the configured include paths;
- `resolvePathVariables` and `Parser.parse`, as function-typed fields.

URIs are treated as file paths, and `Path.join(a, b)` is `a + "/" + b`.

Three behaviours of the code are followed as written:

- **References are taken per directive.** A reference is added when the dependency has no node, or when the document's *previous* dependency list lacks it (lines 274-279). It is not once per owning document. A new document that includes the same header twice therefore takes two references (`ParseProperties.IncludedTwice`).
- **Only this pass's files are published.** A reparse publishes diagnostics only for the files it parsed in that pass: the document itself and the dependencies that had no cached record. A dependency already cached is not republished (`ParseProperties.ReparseSent`).
- **A cycle back to the document re-keys its diagnostics.** If an include cycle leads back to the document itself, the nested parse calls `diagnostics.set` again on that document's key. The array published for the document is then the nested one. This is why `ReparseSent` promises the document's own diagnostics only when the document is cached or unreadable.

## Model

| member | source | states |
|---|---|---|
| Common.Dirname | src/client/commands.ts:39 | the directory is "." or a non-empty prefix of the path; a path without a slash has directory "." |
| Common.Basename | src/client/commands.ts:37 | the base name has no slash and ends the path |
| Common.Extname | src/client/commands.ts:37 | the extension is empty, or starts with "." and is a proper suffix of the base name |
| Common.ExtnameNoDot | src/client/commands.ts:37 | a base name without a dot has an empty extension and is its own stem |
| Common.Stem | src/client/commands.ts:37 | the base name is the stem followed by the extension `Path.extname` gives |
| IncludeResolver.ExpandAll | src/server/server.ts:229 | one entry per configured include path, in order, the k-th being the k-th path expanded against the document's path |
| IncludeResolver.FirstReadable | src/server/server.ts:236-252 | a path the search returns is readable |
| IncludeResolver.SearchOrder | src/server/server.ts:236-252 | the search finds nothing exactly when no directory has the file (with or without ".inc"); otherwise it returns the hit of the first directory that has one, empty entries skipped |
| IncludeResolver.LocalDirectoryFirst | src/server/server.ts:232-241 | a local include readable next to the document wins over every configured include path |
| IncludeResolver.ExtensionFallback | src/server/server.ts:242-246 | when the exact name is unreadable, the name with ".inc" appended is tried in the same directory |
| IncludeResolver.ResolveIncludePath | src/server/server.ts:226-253 | the loop with early return gives exactly the reference search over the local directory (if any) followed by the expanded include paths |
| DependencyManager.AddedCounts | src/server/server.ts:274-278 | `addReference` creates the node with one reference or adds one, and leaves every other node's count alone |
| DependencyManager.ReleasedCounts | src/server/server.ts:305-306 | a release lowers the count by one (never below zero); the node is removed exactly when its last reference goes; a URI without a node is untouched; other nodes are untouched |
| DependencyManager.FileDependencyManager.AddReference | src/server/server.ts:274-278 | the counts become those of one added reference |
| DependencyManager.FileDependencyManager.RemoveReference | src/server/server.ts:305-306 | the counts and the removal flag are those of one release |
| DependencyManager.FileDependencyManager.Replace | src/server/server.ts:137-138 | the counts become those left by the pruning pass |
| ParseSpec.EmptyDiagnostics | src/server/server.ts:134 | the pass starts with a well-formed empty diagnostics map |
| ParseSpec.SetFresh | src/server/server.ts:256-257 | `diagnostics.set(uri, [])` adds a new empty array owned by `uri`; the earlier arrays are kept, `uri` now points at the new one and no other key moves, and the key order gains `uri` at its end only when it was not a key before |
| ParseSpec.SetFreshValid | src/server/server.ts:256-257 | setting a key keeps the map well-formed: distinct keys in insertion order, each pointing at its latest array |
| ParseSpec.Push | src/server/server.ts:263 | pushing appends the diagnostic to one file's array; every other array, the key order and the key index are unchanged |
| ParseSpec.PushValid | src/server/server.ts:296-301 | pushing keeps the map well-formed |
| ParseSpec.DroppedSpec | src/server/server.ts:305 | the dropped dependencies are exactly the previous ones missing from the new list, each as often as it occurred before |
| ParseSpec.ParseFileSpec | src/server/server.ts:255-311 | the pass adds at least the file's own array; for a file without previous dependencies, no cached record is lost |
| ParseSpec.IncludesSpec | src/server/server.ts:267-303 | walking the directives never shrinks the diagnostics or the cache |
| ParseSpec.IncludeStep | src/server/server.ts:268-302 | one directive never shrinks the diagnostics or the cache |
| ParseSpec.LoadDependency | src/server/server.ts:282-293 | loading a dependency caches its record, even when reading it fails |
| ParseSpec.WithPlaceholder | src/server/server.ts:284-285 | the placeholder record is cached before the nested parse; counts and diagnostics are unchanged |
| ParseSpec.PlaceholderShrinks | src/server/server.ts:283-285 | caching the placeholder strictly lowers the number of readable files left unexplored, which ends include cycles |
| ParseSpec.ParseKeepsValid | src/server/server.ts:255-311 | a whole pass, nested parses included, keeps the diagnostics map well-formed |
| ParseSpec.Roots | src/server/server.ts:137 | at most one record per open document is handed to the pruning pass |
| ParseSpec.RootsMembers | src/server/server.ts:137 | a record reaches the pruning pass exactly when it is the record of some open document that has one |
| ParseSpec.RootsAllOpen | src/server/server.ts:137 | when every open document has a record, the pruning pass gets those records, one per open document, in open order |
| ParseSpec.Publish | src/server/server.ts:140 | one message per key of the diagnostics map, in key order |
| ParseSpec.TakeReference | src/server/server.ts:274-279 | a directive adds one reference when the node is new or the previous dependency list lacks it, and none otherwise; it creates the node if needed; other nodes are untouched |
| ParseSpec.ReleaseSpec | src/server/server.ts:305-306 | releasing dependencies only removes nodes and cache entries, and leaves the count of every URI not released unchanged |
| ParseSpec.ReparseSpec | src/server/server.ts:122-141 | a reparse gives the document a record and leaves every other document's record unchanged |
| ParseSpec.CloseSpec | src/server/server.ts:210-220 | closing removes exactly the document's record; closing a document without one leaves the graph unchanged |
| ParseProperties.ResolvedOf | src/server/server.ts:267-294 | the inclusions a file records are at most one per directive; none is the file itself; each is readable |
| ParseProperties.ResolvedFrom | src/server/server.ts:294 | each recorded inclusion carries one of the file's own directives |
| ParseProperties.UnresolvedOf | src/server/server.ts:295-302 | at most one "couldn't resolve" diagnostic per directive |
| ParseProperties.IncludesCollects | src/server/server.ts:294 | the inclusions collected from directive `i` on are the ones already collected followed by the resolved later directives, in directive order |
| ParseProperties.IncludesDepend | src/server/server.ts:280 | the dependency list is the list of the recorded inclusions' URIs, duplicates included |
| ParseProperties.StepShape | src/server/server.ts:268-294 | a directive yields an inclusion exactly when it resolves to a file other than the document |
| ParseProperties.ParseRecord | src/server/server.ts:255-311 | after a parse the record keeps its URI; its inclusions are the resolved directives in order; its dependencies are their URIs; its callables and values are the parser's |
| ParseProperties.ParseKeeps | src/server/server.ts:255-311 | a parse only appends arrays and keys: every earlier array and the key order are kept |
| ParseProperties.IncludesKeeps | src/server/server.ts:267-303 | walking the directives changes no earlier array except the file's own, and only appends keys |
| ParseProperties.StepKeeps | src/server/server.ts:268-302 | one directive changes no earlier array except the file's own, and only appends keys |
| ParseProperties.LoadKeeps | src/server/server.ts:282-293 | loading a dependency changes no earlier array and only appends keys |
| ParseProperties.StepOwn | src/server/server.ts:295-302 | one directive adds to the file's own array exactly the "couldn't resolve" diagnostic when it fails to resolve, and nothing otherwise; Information when silent, Error otherwise |
| ParseProperties.IncludesOwn | src/server/server.ts:295-302 | the file's own array gains exactly the diagnostics of the unresolved later directives, in order |
| ParseProperties.ParseOwn | src/server/server.ts:256-302 | a file's array holds the parser's diagnostics followed by one per unresolved directive |
| ParseProperties.ParseFresh | src/server/server.ts:282-293 | every array a nested parse adds belongs to a distinct readable file that had no cached record before the pass, and, when the parsed file had no dependencies before (always so for a dependency's own parse), that file is still cached afterwards; otherwise the final release may evict it again |
| ParseProperties.IncludesFresh | src/server/server.ts:267-303 | the arrays added while walking the directives belong to distinct newly cached files |
| ParseProperties.StepFresh | src/server/server.ts:268-302 | the arrays added by one directive belong to distinct newly cached files |
| ParseProperties.LoadFresh | src/server/server.ts:282-293 | the arrays added by loading a dependency belong to distinct newly cached files |
| ParseProperties.LoadOnce | src/server/server.ts:282-293 | a cached dependency is not parsed again; an unreadable one is cached as an empty record with no diagnostics; a readable one gets its own new array |
| ParseProperties.PublishLatest | src/server/server.ts:140 | one message per key, each URI once, in key order; every file that got an array is sent; each message carries that file's latest array |
| ParseProperties.ParseOrder | src/server/server.ts:255-311 | the keys present before the parse, followed by the file's own key when it is new, stay a prefix of the key order the pass leaves |
| ParseProperties.ReparseRecord | src/server/server.ts:122-138 | after a reparse the document has a record with the resolved inclusions, their URIs as dependencies, and the parser's callables and values; no other open document's record changes |
| ParseProperties.SentEntries | src/server/server.ts:140 | the document is sent first; URIs are distinct; every other URI sent is a readable file that was not cached before |
| ParseProperties.ReparseSent | src/server/server.ts:122-141 | a reparse sends the document first, then only dependencies newly parsed in this pass, each once; when the document was already cached or is not a readable file (so no cycle can re-key it), the document's message holds the parser's diagnostics followed by the unresolved directives |
| ParseProperties.IncludedTwice | src/server/server.ts:274-280 | a header included twice by a document that did not depend on it before gains two references |
| ParseProperties.ReleaseCounts | src/server/server.ts:305-306 | releasing a list lowers each count by the number of its occurrences (not below zero), and removes node and cached record exactly when the count runs out |
| ParseProperties.DroppedReleased | src/server/server.ts:305-307 | releasing the dependencies dropped from a document's list, from any graph, leaves a dependency still listed with its count and cache entry, and takes from one no longer listed as many references as it occurred in the previous list |
| ParseProperties.SelfInclude | src/server/server.ts:271 | a directive that resolves to the file itself changes nothing and records no inclusion and no dependency |
| Server.LanguageServer.RemoveDependencies | src/server/server.ts:305-306 | the loop releases each listed dependency in turn and evicts the records of removed nodes |
| Server.LanguageServer.RemoveUnreachable | src/server/server.ts:137-138 | counts and cache become those the pruning pass gives for the open documents' records |
| Server.LanguageServer.ParseFile | src/server/server.ts:255-311 | the record, the graph, the cache and the diagnostics map the method leaves are those of `ParseSpec.ParseFileSpec` |
| Server.LanguageServer.ProcessInclusion | src/server/server.ts:268-302 | the state after one directive is that of `ParseSpec.IncludeStep` |
| Server.LanguageServer.LoadInclusion | src/server/server.ts:282-293 | the state after loading a dependency is that of `ParseSpec.LoadDependency` |
| Server.LanguageServer.ReparseDocument | src/server/server.ts:122-141 | the records, graph and published diagnostics are those of `ParseSpec.ReparseSpec` |
| Server.LanguageServer.OnDidClose | src/server/server.ts:210-220 | the records and graph are those of `ParseSpec.CloseSpec` |
| Queries.InclusionAtFirst | src/server/server.ts:149-158 | a definition query on a directive answers the head of the first inclusion whose directive holds the position strictly inside its span on its line, and nothing when none does |
| Queries.InclusionLocation | src/server/server.ts:149-158 | the loop with early return gives the reference answer `InclusionAt` |
| Queries.OpenRecord | src/server/server.ts:144-147 | a record is found exactly when the document is open and has been parsed |
| Queries.OnDefinition | src/server/server.ts:143-163 | nothing for a document that is not open or has no record; otherwise a directive's target, or else the parser's definition lookup |
| Queries.StripInc | src/server/server.ts:98 | one trailing ".inc" is removed, and a name without it is kept |
| Queries.StripIncAppended | src/server/server.ts:98 | stripping undoes appending ".inc", and removes only one suffix |
| Queries.LinkOf | src/server/server.ts:97-101 | a link spans its directive and targets the API base followed by the included name without ".inc" |
| Queries.SymbolOf | src/server/server.ts:180-184 | a callable becomes a function symbol with its identifier, located at its span in the document |
| Queries.DocumentLinks | src/server/server.ts:90-104 | links exist exactly when the document is open, parsed and web links are enabled; there is one per recorded inclusion |
| Queries.LinksTargets | src/server/server.ts:97-101 | each link spans its directive and targets the API page of the included name without ".inc" |
| Queries.DocumentSymbols | src/server/server.ts:174-185 | symbols exist exactly when the document is open and parsed; there is one per callable |
| Queries.SymbolsAfterReparse | src/server/server.ts:174-185 | after a reparse, the k-th symbol is the parser's k-th callable, as a function located in the document |
| Queries.DefinitionFallsThrough | src/server/server.ts:149-163 | after a reparse, a query on a position no directive holds goes to the parser's definition lookup |
| Commands.Potential | src/client/commands.ts:224 | the candidates are exactly the directory's files starting with "amxxpc" |
| Commands.PotentialTwo | src/client/commands.ts:230 | more than one candidate exactly when two distinct files start with "amxxpc" |
| Commands.SelectExecutable | src/client/commands.ts:224-232 | an error names the directory searched; a found compiler is one of the directory's files starting with "amxxpc", joined to the directory |
| Commands.SelectionRules | src/client/commands.ts:224-232 | "amxxpc.exe" wins when present; no candidate is an error; two or more without "amxxpc.exe" are ambiguous; otherwise the single candidate in the directory is used |
| Commands.ExtOfName | src/client/commands.ts:37-39 | `Path.extname` splits a slash-free name `stem.ext` (no dot in `ext`, non-empty `stem`) at its last dot: the extension is ".ext", the stem is `stem`, and the plugin is named `stem.amxx` |
| Commands.JoinSplits | src/client/commands.ts:37-39 | joining a directory and a slash-free name is undone by `dirname` and `basename` |
| Commands.OutputNamePlain | src/client/commands.ts:37-39 | the plugin's file name has no slash |
| Commands.OutputPathChoice | src/client/commands.ts:31-43 | the output is named after the input's stem with ".amxx"; it lies next to the source for "source"; for "path" it lies in the resolved directory, exactly when that is non-empty and exists, and is otherwise an error naming it; any other type is an error |
| Commands.OutputPath | src/client/commands.ts:31-43 | a chosen output path ends with the plugin's file name |
| Commands.CompilerArgs | src/client/commands.ts:45-50 | one argument for the input, one per option, one per include path and one for the output |
| Commands.ArgsLayout | src/client/commands.ts:45-50 | the quoted input, then the options in order, then one quoted `-i` per include path, then the quoted `-o` output |
| Commands.FilesOfSpec | src/client/commands.ts:88-93 | every file with a problem is listed once, in order of first problem, and no other file is |
| Commands.DiagnosticsForMembers | src/client/commands.ts:98-102 | a file's records are exactly those of its problems |
| Commands.GroupMatches | src/client/commands.ts:88-103 | the loop's map has exactly the reported files as keys; each holds that file's records in problem order; the error and warning flags are set exactly when some problem has that kind |
| Commands.ToRange | src/client/commands.ts:128 | a range exists exactly when the start line is positive, and then starts no later than it ends |
| Commands.ToDiagnostic | src/client/commands.ts:124-131 | a record converts exactly when its start line is positive and its message is not empty, keeping its message, as an error exactly for an error problem |
| Commands.ToDiagnosticSpec | src/client/commands.ts:124-131 | a record becomes a diagnostic exactly when its start line is positive and its message is not empty; it is an error exactly for an error problem, otherwise a warning; it covers whole lines from the start line to the end line (or the start line alone), counted from zero and in order |
| Commands.ToDiagnostics | src/client/commands.ts:124-131 | one diagnostic per record when all are accepted |
| Commands.ToDiagnosticsSpec | src/client/commands.ts:124-131 | a file's records convert exactly when every start line is positive and every message is not empty, each to its own diagnostic |
| Commands.AcceptedGrouped | src/client/commands.ts:119-131 | every grouped record is accepted exactly when every problem has a positive start line and a non-empty message |
| Commands.DiagnosticCollection.Clear | src/client/commands.ts:24 | the problem list is emptied |
| Commands.DiagnosticCollection.Set | src/client/commands.ts:132 | one file's entry is replaced and nothing else changes |
| Commands.DiagnosticCollection.DeleteStale | src/client/commands.ts:106-111 | exactly the entries of files outside the kept set are deleted; the others are unchanged |
| Commands.SetReported | src/client/commands.ts:119-134 | the loop finishes exactly when every record is accepted; each reported file's entry then holds its converted records, and other entries are kept; otherwise it stops at the first file with a refused record, after setting exactly the files before it |
| Commands.FinalStatus | src/client/commands.ts:144-149 | failed exactly when there are errors; completed with warnings exactly when there are warnings and no errors; succeeded exactly when there are neither and the output contains "Done." |
| Commands.StatusOfMatches | src/client/commands.ts:144-149 | an error problem fails the compilation; warnings alone complete it with warnings; success needs no problem and "Done." in the output |
| Commands.ReportOutput | src/client/commands.ts:81-149 | the handler completes exactly when every problem has a positive start line and a non-empty message; the list then holds exactly the reported files, each with its converted records; the status is chosen from the error and warning flags and "Done."; when it stops, the stale entries are gone, the reported files before the first one with a refused record hold their converted records, and every other entry is as before |

## Left out

- Transport and timers: the language server protocol transport, the connection, the debounce timer and the asynchronous configuration fetch (lines 108-120) are left out. A reparse is modelled as one synchronous pass.
- Other handlers: signature help (lines 166-173), completion and hover (lines 188-203) pass the document's record and the dependency cache to the parser; signature help first gathers the callables through `Helpers.getSymbols`. Configuration changes only call reparse. None of them is modelled.
- `Parser.parse`, `Parser.doDefinition` and `resolvePathVariables` are function-typed parameters. Their internals are not part of this model.
- `Helpers.removeUnreachableDependencies` is an uninterpreted function `prune` from the open documents' records and the graph to the graph. The Helpers source is not part of this model.
- Server.LanguageServer.RemoveUnreachable: nothing is proved about what the pruning pass removes, because its definition is not part of this model.
- Server.LanguageServer.RemoveDependencies: models `Helpers.removeDependencies` as one release per list element, deleting the cached record when the node goes. The Helpers source is not part of this model.
- FileDependencyManager's source is not part of this model. A dependency node is identified with its URI, and the manager is a map of counts.
- URIs and paths: URIs are plain paths. `URI.parse`/`URI.file`/`fsPath` conversions, URL encoding and `Path.join`'s normalisation (".", "..", repeated and trailing slashes) are not modelled. `Dirname` and `Basename` do not skip a trailing slash as Node's `dirname` and `basename` do (`basename("a/b/")` is "b" there and "" here), and only `/` separates directories; the paths the core passes in do not end in a slash. A header reached by two spellings of its path is therefore two dependency nodes here, and a directive that names the file itself by another spelling is not caught by the self-include test (line 271).
- Exceptions inside a nested parse: the only one modelled is the failed read of a dependency, which caches an empty record. Any other exception is left out. So is the error message written to the console.
- Compile process: the process spawn, stdout/stderr capture, the exit code, timing, the output-channel text and its localisation are not modelled. Neither is the statistics block, nor `FS.statSync`'s size report (both success reports are the status `Succeeded`).
- The compiler's output pattern (line 81): the regular-expression engine is not modelled. The matches are given as records with a non-negative start line and an optional end line.
- Commands.SelectExecutable: a `readdir` error (`throw err`, line 223) is not modelled; the directory listing is a parameter.
- `compile` (lines 185-211): saving the document, `existsSync` and the access check on a configured executable are not modelled.
- `new VSC.Range` and `new VSC.Diagnostic`: the editor's behaviour is modelled. The range refuses a negative line and orders the two ends; the diagnostic refuses an empty message (which the `:\s(.*)` capture yields for a line ending in ": "). Either refusal stops the handler. `Number.MAX_VALUE` is the exact integer 2^1024 - 2^971.
