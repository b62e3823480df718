/** Resolution of an `#include` file name to a readable file: the search of
    `resolveIncludePath` in src/server/server.ts. */
module IncludeResolver {
  import opened Common

  /** The configured include paths after `resolvePathVariables`, in order. */
  function ExpandAll(includePaths: seq<string>, expand: (string, Path) -> string, documentPath: Path): (r: seq<string>)
    ensures |r| == |includePaths|
    ensures forall k :: 0 <= k < |r| ==> r[k] == expand(includePaths[k], documentPath)
  {
    if includePaths == [] then [] else [expand(includePaths[0], documentPath)] + ExpandAll(includePaths[1..], expand, documentPath)
  }

  /** The directories searched, in order: `localTo` first when there is one. */
  function Candidates(localTo: Option<Path>, includePaths: seq<string>): seq<string> {
    (if localTo.Some? then [localTo.value] else []) + includePaths
  }

  /** One directory of the search: the exact name, then the name with ".inc";
      an empty directory entry is skipped. */
  function TryDirectory(dir: string, filename: string, readable: set<Path>): Option<Path> {
    if dir == "" then None
    else if Join(dir, filename) in readable then Some(Join(dir, filename))
    else if Join(dir, filename + ".inc") in readable then Some(Join(dir, filename + ".inc"))
    else None
  }

  /** The first hit of the search over `dirs`. */
  function FirstReadable(dirs: seq<string>, filename: string, readable: set<Path>): (r: Option<Path>)
    ensures r.Some? ==> r.value in readable
  {
    if dirs == [] then None
    else match TryDirectory(dirs[0], filename, readable)
      case Some(p) => Some(p)
      case None => FirstReadable(dirs[1..], filename, readable)
  }

  /** Some file of directory `dir` answers the include. */
  ghost predicate Hit(dir: string, filename: string, readable: set<Path>) {
    dir != "" && (Join(dir, filename) in readable || Join(dir, filename + ".inc") in readable)
  }

  /** The file a hit in `dir` stands for: the exact name wins over ".inc". */
  ghost function Picked(dir: string, filename: string, readable: set<Path>): Path {
    if Join(dir, filename) in readable then Join(dir, filename) else Join(dir, filename + ".inc")
  }

  /** The search returns nothing exactly when no directory has a hit, and
      otherwise the file picked in the first directory that has one. */
  lemma {:induction false} SearchOrder(dirs: seq<string>, filename: string, readable: set<Path>)
    ensures FirstReadable(dirs, filename, readable).None? <==>
              forall k :: 0 <= k < |dirs| ==> !Hit(dirs[k], filename, readable)
    ensures FirstReadable(dirs, filename, readable).Some? ==>
              exists k :: 0 <= k < |dirs| && Hit(dirs[k], filename, readable)
                && (forall j :: 0 <= j < k ==> !Hit(dirs[j], filename, readable))
                && FirstReadable(dirs, filename, readable).value == Picked(dirs[k], filename, readable)
  {
    if dirs != [] {
      SearchOrder(dirs[1..], filename, readable);
      if !Hit(dirs[0], filename, readable) {
        var r := FirstReadable(dirs[1..], filename, readable);
        if r.Some? {
          var k :| 0 <= k < |dirs[1..]| && Hit(dirs[1..][k], filename, readable)
                     && (forall j :: 0 <= j < k ==> !Hit(dirs[1..][j], filename, readable))
                     && r.value == Picked(dirs[1..][k], filename, readable);
          assert forall j :: 0 <= j < k + 1 ==> !Hit(dirs[j], filename, readable) by {
            forall j | 0 <= j < k + 1 ensures !Hit(dirs[j], filename, readable) {
              if j > 0 { assert dirs[j] == dirs[1..][j - 1]; }
            }
          }
          assert dirs[k + 1] == dirs[1..][k];
        } else {
          forall k | 0 <= k < |dirs| ensures !Hit(dirs[k], filename, readable) {
            if k > 0 { assert dirs[k] == dirs[1..][k - 1]; }
          }
        }
      }
    }
  }

  /** The test scenario of a local include: a file found in the including
      file's own directory is taken even when a configured path has it too. */
  lemma LocalDirectoryFirst(local: Path, includePaths: seq<string>, filename: string, readable: set<Path>)
    requires local != "" && Join(local, filename) in readable
    ensures FirstReadable(Candidates(Some(local), includePaths), filename, readable) == Some(Join(local, filename))
  {
    assert Candidates(Some(local), includePaths)[0] == local;
  }

  /** An include written without its extension finds `name.inc` when only
      that file exists in a searched directory. */
  lemma ExtensionFallback(dir: string, filename: string, readable: set<Path>)
    requires dir != "" && Join(dir, filename) !in readable && Join(dir, filename + ".inc") in readable
    ensures FirstReadable([dir], filename, readable) == Some(Join(dir, filename + ".inc"))
  {
  }

  /** `resolveIncludePath` (server.ts): the candidate directories are searched
      in order with an early return at the first readable file. */
  method ResolveIncludePath(filename: string, documentPath: Path, localTo: Option<Path>,
                            includePaths: seq<string>, expand: (string, Path) -> string,
                            readable: set<Path>)
    returns (r: Option<Path>)
    ensures r == FirstReadable(Candidates(localTo, ExpandAll(includePaths, expand, documentPath)), filename, readable)
  {
    var finalIncludePaths := ExpandAll(includePaths, expand, documentPath);
    if localTo.Some? {
      finalIncludePaths := [localTo.value] + finalIncludePaths;
    }
    ghost var all := finalIncludePaths;
    assert all == Candidates(localTo, ExpandAll(includePaths, expand, documentPath));
    for i := 0 to |finalIncludePaths|
      invariant FirstReadable(all[i..], filename, readable) == FirstReadable(all, filename, readable)
    {
      assert all[i..][1..] == all[i + 1..];
      var includePath := finalIncludePaths[i];
      if includePath == "" {
        continue;
      }
      var fullPath := Join(includePath, filename);
      if fullPath in readable {
        return Some(fullPath);
      }
      var fullPathWithExt := Join(includePath, filename + ".inc");
      if fullPathWithExt in readable {
        return Some(fullPathWithExt);
      }
    }
    return None;
  }
}
