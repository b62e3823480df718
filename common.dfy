/** Values shared by the language server and the compile command: optional and
    fallible results, POSIX-style path helpers and small sequence helpers. */
module Common {

  datatype Option<+T> = None | Some(value: T)

  datatype Result<+T, +E> = Ok(value: T) | Err(error: E)

  /** A file system path; URIs of files are identified with their paths. */
  type Path = string

  /** `Path.join`, without normalisation: the two parts separated by one slash. */
  function Join(dir: string, name: string): (p: Path)
    ensures |p| == |dir| + 1 + |name|
    ensures p[..|dir|] == dir && p[|dir|] == '/' && p[|dir| + 1..] == name
  {
    dir + "/" + name
  }

  predicate StartsWith(s: string, prefix: string) {
    |prefix| <= |s| && s[..|prefix|] == prefix
  }

  predicate EndsWith(s: string, suffix: string) {
    |suffix| <= |s| && s[|s| - |suffix|..] == suffix
  }

  /** Whether `needle` occurs somewhere in `s` (what a JavaScript regular
      expression without special characters tests). */
  predicate Contains(s: string, needle: string) {
    exists i :: 0 <= i <= |s| && StartsWith(s[i..], needle)
  }

  /** The index of the last occurrence of `c` in `s`, if any. */
  function LastIndexOf(s: string, c: char): (r: Option<nat>)
    ensures r.Some? ==> r.value < |s| && s[r.value] == c
    ensures r.Some? ==> forall k :: r.value < k < |s| ==> s[k] != c
    ensures r.None? ==> forall k :: 0 <= k < |s| ==> s[k] != c
  {
    if s == [] then None
    else if s[|s| - 1] == c then Some(|s| - 1)
    else LastIndexOf(s[..|s| - 1], c)
  }

  /** `Path.dirname`: everything before the last slash, "/" for a file in the
      root directory and "." for a bare file name. */
  function Dirname(p: Path): (d: Path)
    ensures d != ""
    ensures d == "." || (|d| <= |p| && d == p[..|d|])
    ensures (forall k :: 0 <= k < |p| ==> p[k] != '/') ==> d == "."
  {
    match LastIndexOf(p, '/')
    case None => "."
    case Some(i) => if i == 0 then assert p[..1] == [p[0]]; "/" else p[..i]
  }

  /** `Path.basename`: everything after the last slash. */
  function Basename(p: Path): (b: string)
    ensures forall k :: 0 <= k < |b| ==> b[k] != '/'
    ensures EndsWith(p, b)
  {
    match LastIndexOf(p, '/')
    case None => p
    case Some(i) => p[i + 1..]
  }

  /** `Path.extname`: the base name from its last dot on, except that a base
      name whose only dot is its first character, or the name "..", has none. */
  function Extname(p: Path): (e: string)
    ensures e == "" || (e[0] == '.' && EndsWith(Basename(p), e) && |e| < |Basename(p)|)
  {
    var b := Basename(p);
    match LastIndexOf(b, '.')
    case None => ""
    case Some(j) => if j == 0 || b == ".." then "" else b[j..]
  }

  /** A base name whose last dot is at `j > 0` (and that is not "..") has
      the extension from that dot on and the stem before it. */
  lemma ExtnameAt(p: Path, j: nat)
    requires LastIndexOf(Basename(p), '.') == Some(j) && j > 0 && Basename(p) != ".."
    ensures Extname(p) == Basename(p)[j..] && Stem(p) == Basename(p)[..j]
  {
  }

  /** A base name without a dot has no extension and is its own stem. */
  lemma ExtnameNoDot(p: Path)
    requires forall k :: 0 <= k < |Basename(p)| ==> Basename(p)[k] != '.'
    ensures Extname(p) == "" && Stem(p) == Basename(p)
  {
  }

  /** `Path.basename(p, Path.extname(p))`: the base name without its extension. */
  function Stem(p: Path): (s: string)
    ensures Basename(p) == s + Extname(p)
  {
    var b, e := Basename(p), Extname(p);
    b[..|b| - |e|]
  }

  /** Number of occurrences of `x` in `s`. */
  function Occurrences<T(==)>(s: seq<T>, x: T): (n: nat)
    ensures n <= |s|
    ensures n == 0 <==> x !in s
  {
    if s == [] then 0 else (if s[0] == x then 1 else 0) + Occurrences(s[1..], x)
  }

  lemma {:induction false} OccurrencesConcat<T>(a: seq<T>, b: seq<T>)
    ensures forall x :: Occurrences(a + b, x) == Occurrences(a, x) + Occurrences(b, x)
  {
    if a == [] {
      assert a + b == b;
    } else {
      OccurrencesConcat(a[1..], b);
      assert (a + b)[1..] == a[1..] + b;
    }
  }

  /** The elements of `s` in order with no element repeated. */
  predicate Distinct<T(==)>(s: seq<T>) {
    forall i, j :: 0 <= i < j < |s| ==> s[i] != s[j]
  }

  function Max0(n: int): nat {
    if n < 0 then 0 else n
  }
}
