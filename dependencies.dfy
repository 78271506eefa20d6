/**
 * Helpers for `package.json` dependency lists: merging two lists, and the
 * npm module name an import path refers to.
 */
module Dependencies {
  /** A dependency list: module name to version string. */
  type PackageJsonDependencies = map<string, string>

  /** The merge `merge` computes: every name of either list, `b`'s version winning. */
  function Merged(a: PackageJsonDependencies, b: PackageJsonDependencies): (r: PackageJsonDependencies)
    ensures r.Keys == a.Keys + b.Keys
    ensures forall name :: name in b ==> r[name] == b[name]
    ensures forall name :: name in a && name !in b ==> r[name] == a[name]
  {
    map name | name in a.Keys + b.Keys :: if name in b then b[name] else a[name]
  }

  /** The entries of `b` whose names are in `names`. */
  function Restrict(b: PackageJsonDependencies, names: set<string>): (r: PackageJsonDependencies)
    ensures r.Keys == b.Keys * names
    ensures forall name :: name in r ==> r[name] == b[name]
  {
    map name | name in b && name in names :: b[name]
  }

  /** Writing one more name of `b` over the partial merge. */
  lemma MergeStep(a: PackageJsonDependencies, b: PackageJsonDependencies, done: set<string>, name: string)
    requires name in b
    ensures Merged(a, Restrict(b, done))[name := b[name]] == Merged(a, Restrict(b, done + {name}))
  {
  }

  lemma MergeStart(a: PackageJsonDependencies, b: PackageJsonDependencies)
    ensures Merged(a, Restrict(b, {})) == a
  {
    assert Restrict(b, {}) == map[];
  }

  lemma MergeEnd(a: PackageJsonDependencies, b: PackageJsonDependencies, done: set<string>)
    requires b.Keys <= done
    ensures Merged(a, Restrict(b, done)) == Merged(a, b)
  {
    assert Restrict(b, done) == b;
  }

  /**
   * `merge`: a copy of `a`, then every name of `b` written over it. The
   * warning logged for a conflicting version is left out.
   */
  method Merge(a: PackageJsonDependencies, b: PackageJsonDependencies) returns (result: PackageJsonDependencies)
    ensures result == Merged(a, b)
  {
    result := a;
    var remaining := b.Keys;
    ghost var done: set<string> := {};
    MergeStart(a, b);
    while remaining != {}
      invariant remaining <= b.Keys && b.Keys <= done + remaining
      invariant result == Merged(a, Restrict(b, done))
      decreases |remaining|
    {
      var name :| name in remaining;
      MergeStep(a, b, done, name);
      result := result[name := b[name]];
      remaining := remaining - {name};
      done := done + {name};
    }
    MergeEnd(a, b, done);
  }

  lemma MergeEmptyRight(a: PackageJsonDependencies)
    ensures Merged(a, map[]) == a
  {
  }

  lemma MergeEmptyLeft(b: PackageJsonDependencies)
    ensures Merged(map[], b) == b
  {
  }

  /** Merging is associative, so a chain of merges can be grouped either way. */
  lemma MergeAssociative(a: PackageJsonDependencies, b: PackageJsonDependencies, c: PackageJsonDependencies)
    ensures Merged(Merged(a, b), c) == Merged(a, Merged(b, c))
  {
  }

  /** Import paths split on both `/` and `\`. */
  predicate IsSeparator(c: char) {
    c == '/' || c == '\\'
  }

  /** The index of the first separator in `s`, or `|s|` if there is none. */
  function FirstSeparator(s: string): (i: nat)
    ensures i <= |s|
    ensures i < |s| ==> IsSeparator(s[i])
    ensures forall j :: 0 <= j < i ==> !IsSeparator(s[j])
  {
    if s == [] then 0
    else if IsSeparator(s[0]) then 0
    else 1 + FirstSeparator(s[1..])
  }

  /** `importPath.split(/[/\\]/)`: the text between separators, empty pieces included. */
  function Split(s: string): (parts: seq<string>)
    ensures |parts| >= 1
    ensures parts[0] == s[..FirstSeparator(s)]
    ensures FirstSeparator(s) < |s| ==> parts[1..] == Split(s[FirstSeparator(s) + 1..])
    ensures FirstSeparator(s) == |s| ==> parts == [s]
    decreases |s|
  {
    var i := FirstSeparator(s);
    if i == |s| then [s] else [s[..i]] + Split(s[i + 1..])
  }

  /** How a template literal prints `undefined`. */
  const UNDEFINED_TEXT: string := "undefined"

  function StartsWithAt(s: string): bool {
    |s| > 0 && s[0] == '@'
  }

  /**
   * `getModuleNameFromImportPath`: the first piece, or for a path starting
   * with `@` the first two pieces joined by `/`. A scoped path with no
   * separator has no second piece, and the template literal then prints it
   * as "undefined".
   */
  function GetModuleNameFromImportPath(importPath: string): (name: string)
    ensures !StartsWithAt(importPath) ==>
      && name == importPath[..FirstSeparator(importPath)]
      && forall c :: c in name ==> !IsSeparator(c)
    ensures StartsWithAt(importPath) && FirstSeparator(importPath) < |importPath| ==>
      var i := FirstSeparator(importPath);
      var rest := importPath[i + 1..];
      name == importPath[..i] + "/" + rest[..FirstSeparator(rest)]
    ensures StartsWithAt(importPath) && FirstSeparator(importPath) == |importPath| ==>
      name == importPath + "/" + UNDEFINED_TEXT
  {
    var pathParts := Split(importPath);
    if StartsWithAt(importPath) then
      pathParts[0] + "/" + (if |pathParts| > 1 then pathParts[1] else UNDEFINED_TEXT)
    else
      pathParts[0]
  }

  /** A text holding no separator. */
  predicate IsSegment(s: string) {
    forall i :: 0 <= i < |s| ==> !IsSeparator(s[i])
  }

  lemma FirstSeparatorOfSegment(segment: string, rest: string)
    requires IsSegment(segment) && (rest == [] || IsSeparator(rest[0]))
    ensures FirstSeparator(segment + rest) == |segment|
    decreases |segment|
  {
    if segment != [] {
      assert (segment + rest)[1..] == segment[1..] + rest;
      FirstSeparatorOfSegment(segment[1..], rest);
    }
  }

  /** The name of an unscoped module, followed by any sub-path, is found again. */
  lemma UnscopedRoundTrip(moduleName: string, subPath: string)
    requires IsSegment(moduleName) && !StartsWithAt(moduleName) && moduleName != []
    requires subPath == [] || IsSeparator(subPath[0])
    ensures GetModuleNameFromImportPath(moduleName + subPath) == moduleName
  {
    FirstSeparatorOfSegment(moduleName, subPath);
    assert (moduleName + subPath)[..|moduleName|] == moduleName;
  }

  /** The name `@scope/name` of a scoped module, followed by any sub-path, is found again. */
  lemma ScopedRoundTrip(scope: string, name: string, subPath: string)
    requires IsSegment(scope) && StartsWithAt(scope) && IsSegment(name)
    requires subPath == [] || IsSeparator(subPath[0])
    ensures GetModuleNameFromImportPath(scope + "/" + name + subPath) == scope + "/" + name
  {
    var path := scope + "/" + name + subPath;
    assert path == scope + ("/" + name + subPath);
    FirstSeparatorOfSegment(scope, "/" + name + subPath);
    assert path[..|scope|] == scope;
    var rest := path[|scope| + 1..];
    assert rest == name + subPath;
    FirstSeparatorOfSegment(name, subPath);
    assert rest[..|name|] == name;
  }
}
