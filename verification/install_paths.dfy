/**
 Install-path validation and discovery of the launcher (`IsValidFFXIVPath`,
 `PathsToTry`, `TryGamePaths` in XIVLauncher/Util.cs).

 The filesystem is abstract: the set of paths that exist as directories.
 `Path.Combine` is modelled after the .NET Framework rules for the
 two-argument overload; only relative children ("game", "boot") are used here.
 */
module InstallPaths {
  import opened Optional

  /** The directories that exist on the host, by full path. */
  type FileSystem = set<string>

  /**
   `Directory.Exists`: an empty path is never a directory. Paths are compared
   as exact strings, without case folding or normalisation.
   */
  predicate DirectoryExists(fs: FileSystem, path: string)
  {
    |path| > 0 && path in fs
  }

  predicate IsSeparator(c: char)
  {
    c == '\\' || c == '/' || c == ':'
  }

  predicate EndsWithSeparator(path: string)
  {
    |path| > 0 && IsSeparator(path[|path| - 1])
  }

  /** `Path.IsPathRooted`: a leading separator, or a drive letter. */
  predicate IsRooted(path: string)
  {
    (|path| >= 1 && (path[0] == '\\' || path[0] == '/')) || (|path| >= 2 && path[1] == ':')
  }

  /** `Path.Combine(dir, child)`. */
  function Combine(dir: string, child: string): (r: string)
    ensures |dir| > 0 && |child| > 0 && !IsRooted(child) ==>
              && |dir| + |child| <= |r| <= |dir| + |child| + 1
              && r[..|dir|] == dir
              && r[|r| - |child|..] == child
              && (|r| == |dir| + |child| + 1 <==> !EndsWithSeparator(dir))
              && (|r| == |dir| + |child| + 1 ==> r[|dir|] == '\\')
    ensures |child| == 0 ==> r == dir
    ensures |child| > 0 && (|dir| == 0 || IsRooted(child)) ==> r == child
  {
    if |child| == 0 then dir
    else if |dir| == 0 then child
    else if IsRooted(child) then child
    else if EndsWithSeparator(dir) then dir + child
    else dir + "\\" + child
  }

  const GameDir := "game"
  const BootDir := "boot"

  /**
   `IsValidFFXIVPath`: a null or empty path is rejected before the filesystem
   is consulted; otherwise both the "game" and the "boot" subdirectory must exist.
   */
  function IsValidFFXIVPath(fs: FileSystem, path: Option<string>): (valid: bool)
    ensures valid <==> path.Some? && |path.value| > 0
                       && Combine(path.value, GameDir) in fs && Combine(path.value, BootDir) in fs
  {
    match path
    case None => false
    case Some(p) =>
      |p| > 0 && DirectoryExists(fs, Combine(p, GameDir)) && DirectoryExists(fs, Combine(p, BootDir))
  }

  /** The two directories whose existence decides whether `p` is an install. */
  function ProbedChildren(p: string): (r: set<string>)
    requires |p| > 0
    ensures |r| == 2
    ensures forall d :: d in r ==> |d| > |p| && d[..|p|] == p
  {
    CombineExtendsParent(p, GameDir);
    CombineExtendsParent(p, BootDir);
    CombineKeepsChildrenApart(p);
    {Combine(p, GameDir), Combine(p, BootDir)}
  }

  lemma CombineExtendsParent(p: string, child: string)
    requires |p| > 0 && |child| > 0 && !IsRooted(child)
    ensures |Combine(p, child)| > |p| && Combine(p, child)[..|p|] == p
  {
  }

  /** "game" and "boot" never land on the same path, whatever the parent. */
  lemma CombineKeepsChildrenApart(p: string)
    ensures Combine(p, GameDir) != Combine(p, BootDir)
  {
    var g, b := Combine(p, GameDir), Combine(p, BootDir);
    if |p| > 0 {
      assert g[|g| - 1] == 'e' && b[|b| - 1] == 't';
    }
  }

  /** Null and empty paths are invalid in every filesystem. */
  lemma NullOrEmptyIsInvalid(fs: FileSystem, path: Option<string>)
    requires path.None? || path.value == ""
    ensures !IsValidFFXIVPath(fs, path)
  {
  }

  /**
   For a non-empty path the verdict is exactly "both children exist", and no
   other directory affects it: two filesystems that agree on the two children
   give the same answer.
   */
  lemma ValidityDependsOnlyOnChildren(fs1: FileSystem, fs2: FileSystem, p: string)
    requires |p| > 0
    requires forall d :: d in ProbedChildren(p) ==> (d in fs1 <==> d in fs2)
    ensures IsValidFFXIVPath(fs1, Some(p)) <==> IsValidFFXIVPath(fs2, Some(p))
    ensures IsValidFFXIVPath(fs1, Some(p)) <==> ProbedChildren(p) <= fs1
  {
    assert Combine(p, GameDir) in ProbedChildren(p);
    assert Combine(p, BootDir) in ProbedChildren(p);
  }

  /**
   Removing either required subdirectory of a valid install invalidates it;
   removing any other path string keeps it valid.
   */
  lemma RemovingChildInvalidates(fs: FileSystem, p: string)
    requires IsValidFFXIVPath(fs, Some(p))
    ensures !IsValidFFXIVPath(fs - {Combine(p, GameDir)}, Some(p))
    ensures !IsValidFFXIVPath(fs - {Combine(p, BootDir)}, Some(p))
    ensures forall d :: d !in ProbedChildren(p) ==> IsValidFFXIVPath(fs - {d}, Some(p))
  {
    CombineKeepsChildrenApart(p);
  }

  /**
   For a non-empty path not already ending in a separator, appending one
   does not change the verdict.
   */
  lemma TrailingSeparatorIrrelevant(fs: FileSystem, p: string)
    requires |p| > 0 && !EndsWithSeparator(p)
    ensures IsValidFFXIVPath(fs, Some(p + "\\")) <==> IsValidFFXIVPath(fs, Some(p))
  {
    var q := p + "\\";
    assert EndsWithSeparator(q);
    assert Combine(q, GameDir) == Combine(p, GameDir);
    assert Combine(q, BootDir) == Combine(p, BootDir);
  }

  /** `PathsToTry`: default install locations, in priority order. */
  const PathsToTry: seq<string> := [
    "C:\\SquareEnix\\FINAL FANTASY XIV - A Realm Reborn",
    "C:\\Program Files (x86)\\Steam\\steamapps\\common\\FINAL FANTASY XIV Online",
    "C:\\Program Files (x86)\\Steam\\steamapps\\common\\FINAL FANTASY XIV - A Realm Reborn",
    "C:\\Program Files (x86)\\FINAL FANTASY XIV - A Realm Reborn"
  ]

  /** The test `TryGamePaths` applies to each candidate. */
  predicate Qualifies(fs: FileSystem, path: string)
  {
    DirectoryExists(fs, path) && IsValidFFXIVPath(fs, Some(path))
  }

  /**
   Reference definition of the first-match search: the position of the first
   qualifying candidate, or `None` when no candidate qualifies.
   */
  function FirstQualifyingIndex(fs: FileSystem, candidates: seq<string>): (r: Option<nat>)
    ensures r.Some? ==>
              && r.value < |candidates|
              && Qualifies(fs, candidates[r.value])
              && forall j :: 0 <= j < r.value ==> !Qualifies(fs, candidates[j])
    ensures r.None? <==> forall j :: 0 <= j < |candidates| ==> !Qualifies(fs, candidates[j])
  {
    if |candidates| == 0 then None
    else if Qualifies(fs, candidates[0]) then Some(0)
    else match FirstQualifyingIndex(fs, candidates[1..])
      case None => None
      case Some(i) => Some(i + 1)
  }

  function FirstQualifying(fs: FileSystem, candidates: seq<string>): Option<string>
  {
    match FirstQualifyingIndex(fs, candidates)
    case None => None
    case Some(i) => Some(candidates[i])
  }

  /** `TryGamePaths`: scan `PathsToTry` in order and return the first qualifying one. */
  method TryGamePaths(fs: FileSystem) returns (r: Option<string>)
    ensures r == FirstQualifying(fs, PathsToTry)
    ensures r.None? <==> forall j :: 0 <= j < |PathsToTry| ==> !Qualifies(fs, PathsToTry[j])
    ensures r.Some? ==>
              exists k :: 0 <= k < |PathsToTry| && PathsToTry[k] == r.value
                && Qualifies(fs, PathsToTry[k])
                && forall j :: 0 <= j < k ==> !Qualifies(fs, PathsToTry[j])
  {
    var i := 0;
    while i < |PathsToTry|
      invariant 0 <= i <= |PathsToTry|
      invariant forall j :: 0 <= j < i ==> !Qualifies(fs, PathsToTry[j])
    {
      var path := PathsToTry[i];
      if DirectoryExists(fs, path) && IsValidFFXIVPath(fs, Some(path)) {
        return Some(path);
      }
      i := i + 1;
    }
    return None;
  }

  /** The candidates are distinct, so "first match" names a unique position. */
  lemma PathsToTryDistinct()
    ensures forall i, j :: 0 <= i < j < |PathsToTry| ==> PathsToTry[i] != PathsToTry[j]
    ensures forall i :: 0 <= i < |PathsToTry| ==> |PathsToTry[i]| > 0 && !EndsWithSeparator(PathsToTry[i])
  {
    assert |PathsToTry[0]| == 48 && |PathsToTry[1]| == 70;
    assert |PathsToTry[2]| == 80 && |PathsToTry[3]| == 57;
    assert PathsToTry[0][47] == 'n' && PathsToTry[1][69] == 'e';
    assert PathsToTry[2][79] == 'n' && PathsToTry[3][56] == 'n';
  }

  /** Of two qualifying candidates, the earlier-listed one wins. */
  lemma EarlierCandidateWins(fs: FileSystem, candidates: seq<string>, i: nat, j: nat)
    requires i < j < |candidates|
    requires Qualifies(fs, candidates[i]) && Qualifies(fs, candidates[j])
    ensures FirstQualifyingIndex(fs, candidates).Some?
    ensures FirstQualifyingIndex(fs, candidates).value <= i < j
  {
  }

  /** `fs1` and `fs2` agree on every candidate and on its "game" and "boot" children. */
  ghost predicate AgreeOnProbes(fs1: FileSystem, fs2: FileSystem, candidates: seq<string>)
  {
    forall c :: c in candidates ==>
      && (c in fs1 <==> c in fs2)
      && (Combine(c, GameDir) in fs1 <==> Combine(c, GameDir) in fs2)
      && (Combine(c, BootDir) in fs1 <==> Combine(c, BootDir) in fs2)
  }

  /**
   The search reads nothing but the candidates and their "game" and "boot"
   children: filesystems that agree there give the same result.
   */
  lemma {:induction false} SearchDependsOnlyOnProbes(fs1: FileSystem, fs2: FileSystem, candidates: seq<string>)
    requires AgreeOnProbes(fs1, fs2, candidates)
    ensures FirstQualifyingIndex(fs1, candidates) == FirstQualifyingIndex(fs2, candidates)
  {
    if |candidates| > 0 {
      var c := candidates[0];
      assert c in candidates;
      assert Qualifies(fs1, c) <==> Qualifies(fs2, c);
      assert AgreeOnProbes(fs1, fs2, candidates[1..]) by {
        forall d | d in candidates[1..] ensures d in candidates {
        }
      }
      SearchDependsOnlyOnProbes(fs1, fs2, candidates[1..]);
    }
  }

  /**
   Creating directories can only make the search succeed earlier: a
   candidate found before is still found, at the same or an earlier position.
   */
  lemma {:induction false} SearchMonotone(fs1: FileSystem, fs2: FileSystem, candidates: seq<string>)
    requires fs1 <= fs2
    ensures FirstQualifyingIndex(fs1, candidates).Some? ==>
              && FirstQualifyingIndex(fs2, candidates).Some?
              && FirstQualifyingIndex(fs2, candidates).value <= FirstQualifyingIndex(fs1, candidates).value
  {
    if |candidates| > 0 && !Qualifies(fs2, candidates[0]) {
      assert !Qualifies(fs1, candidates[0]);
      SearchMonotone(fs1, fs2, candidates[1..]);
    }
  }
}
