/** The records the language server keeps per file and the shapes it exchanges
    with the parser and the editor. */
module Types {
  import opened Common

  type Uri = string

  datatype Position = Position(line: nat, character: nat)

  datatype Range = Range(start: Position, end: Position)

  datatype Severity = Error | Warning | Information | Hint

  datatype Diagnostic = Diagnostic(message: string, severity: Severity, source: string, range: Range)

  /** An `#include` directive as the parser reports it. */
  datatype InclusionDescriptor = InclusionDescriptor(
    filename: string,
    isLocal: bool,   // include "x": the including file's directory is searched first
    isSilent: bool,  // #tryinclude: failing to resolve it is only informational
    start: Position,
    end: Position)

  datatype ResolvedInclusion = ResolvedInclusion(uri: Uri, descriptor: InclusionDescriptor)

  /** A function-like symbol declared in a file (the fields the core uses). */
  datatype CallableDescriptor = CallableDescriptor(identifier: string, start: Position, end: Position)

  /** A constant or global declared in a file; the core only stores it. */
  datatype ValueDescriptor = ValueDescriptor(identifier: string, start: Position, end: Position)

  /** What the parser returns for one file. */
  datatype ParserResults = ParserResults(
    diagnostics: seq<Diagnostic>,
    headerInclusions: seq<InclusionDescriptor>,
    callables: seq<CallableDescriptor>,
    values: seq<ValueDescriptor>)

  /** What the server remembers about a parsed file, open or included. */
  datatype DocumentData = DocumentData(
    uri: Uri,
    resolvedInclusions: seq<ResolvedInclusion>,
    dependencies: seq<Uri>,
    callables: seq<CallableDescriptor>,
    values: seq<ValueDescriptor>)

  /** `new DocumentData(uri)`: nothing parsed yet. */
  function NewDocumentData(uri: Uri): DocumentData {
    DocumentData(uri, [], [], [], [])
  }

  datatype Location = Location(uri: Uri, range: Range)
}
