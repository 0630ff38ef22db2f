/** The checks and decisions of the packer that do not depend on zipping or
    hashing: the pack options, the manifest validation that runs before any
    file is touched, the split decision for a finished zip and the path
    normalisation applied to the base file list. */
module Packer {
  import opened Wrappers
  import opened Text
  import opened Core
  import ModuleDownloader

  // ---------------------------------------------------------------------------
  // Pack options

  datatype PackOptions = PackOptions(
    useConsoleLog: bool,
    forceCacheBust: bool,
    splitFileSize: int,
    keepCompletedModulesAfterSplit: bool)

  /** `buildManifest.packOptions`: each field may be absent. */
  datatype PackOptionsOverride = PackOptionsOverride(
    useConsoleLog: Option<bool>,
    forceCacheBust: Option<bool>,
    splitFileSize: Option<int>,
    keepCompletedModulesAfterSplit: Option<bool>)

  /** The defaults `pack` starts from; `defaultSplitFileSize` is the
      build-wide constant. */
  function DefaultOptions(defaultSplitFileSize: int): PackOptions {
    PackOptions(true, false, defaultSplitFileSize, true)
  }

  /** `Object.assign(options, buildManifest.packOptions)` when the manifest
      carries options: every field present in the override wins. */
  function ResolvePackOptions(packOptions: Option<PackOptionsOverride>, defaultSplitFileSize: int): PackOptions
  {
    var d := DefaultOptions(defaultSplitFileSize);
    match packOptions
    case None => d
    case Some(p) =>
      PackOptions(
        if p.useConsoleLog.Some? then p.useConsoleLog.value else d.useConsoleLog,
        if p.forceCacheBust.Some? then p.forceCacheBust.value else d.forceCacheBust,
        if p.splitFileSize.Some? then p.splitFileSize.value else d.splitFileSize,
        if p.keepCompletedModulesAfterSplit.Some? then p.keepCompletedModulesAfterSplit.value
        else d.keepCompletedModulesAfterSplit)
  }

  /** An override that sets nothing is the same as no override at all. */
  lemma EmptyOverrideKeepsDefaults(defaultSplitFileSize: int)
    ensures ResolvePackOptions(Some(PackOptionsOverride(None, None, None, None)), defaultSplitFileSize)
         == ResolvePackOptions(None, defaultSplitFileSize)
  {
  }

  /** An override that sets every field decides every field, whatever the default. */
  lemma FullOverrideWins(o: PackOptions, defaultSplitFileSize: int)
    ensures ResolvePackOptions(
              Some(PackOptionsOverride(Some(o.useConsoleLog), Some(o.forceCacheBust),
                                       Some(o.splitFileSize), Some(o.keepCompletedModulesAfterSplit))),
              defaultSplitFileSize) == o
  {
  }

  // ---------------------------------------------------------------------------
  // The split decision of `zip`

  /** `doSplit`: a positive split size that the zip exceeds. */
  predicate DoSplit(splitFileSize: int, zipSize: nat) {
    splitFileSize > 0 && zipSize > splitFileSize
  }

  /** The `splitFileCount` recorded for a zip: the number of parts the
      splitter produced when splitting, and 0 otherwise. */
  function SplitFileCount(splitFileSize: int, zipSize: nat, partsProduced: nat): nat
  {
    if DoSplit(splitFileSize, zipSize) then partsProduced else 0
  }

  /** A zero or negative split size turns splitting off; a zip no larger than
      the split size is never split. */
  lemma NoSplitWithoutPositiveSize(splitFileSize: int, zipSize: nat, partsProduced: nat)
    requires splitFileSize <= 0 || zipSize <= splitFileSize
    ensures SplitFileCount(splitFileSize, zipSize, partsProduced) == 0
  {
  }

  /** The manifest entry `pack` records for a module it zipped. */
  function PackedModule(name: string, hash: string, splitFileSize: int, zipSize: nat, partsProduced: nat): DistributionModule
  {
    DistributionModule(name, hash, Some(SplitFileCount(splitFileSize, zipSize, partsProduced)), Some(zipSize))
  }

  /** Packer and downloader agree: a module the packer split into at least one
      part is downloaded part by part, with exactly that many parts; one it
      did not split is downloaded as a single file. */
  lemma PackedModuleDownloadMode(name: string, hash: string, splitFileSize: int, zipSize: nat, partsProduced: nat)
    ensures var m := PackedModule(name, hash, splitFileSize, zipSize, partsProduced);
      && (ModuleDownloader.IsSplit(m) <==> DoSplit(splitFileSize, zipSize) && partsProduced > 0)
      && (ModuleDownloader.IsSplit(m) ==> ModuleDownloader.NumParts(m) == partsProduced)
  {
  }

  // ---------------------------------------------------------------------------
  // toUnixPath

  /** The prefix of a Windows extended-length path, `\\?\`. */
  const ExtendedLengthPrefix: string := "\\\\?\\"

  predicate IsExtendedLengthPath(p: string) {
    StartsWith(p, ExtendedLengthPrefix)
  }

  /** A character outside U+0000..U+0080 occurs in `p`. */
  predicate HasNonAscii(p: string) {
    exists i :: 0 <= i < |p| && p[i] > '\U{0080}'
  }

  /** `p.replace(/\\/g, '/')`. */
  function SlashesForBackslashes(p: string): (r: string)
    ensures |r| == |p|
    ensures forall i :: 0 <= i < |p| ==> r[i] == if p[i] == '\\' then '/' else p[i]
  {
    if p == [] then []
    else [if p[0] == '\\' then '/' else p[0]] + SlashesForBackslashes(p[1..])
  }

  /** `toUnixPath`: extended-length paths and paths with a non-ASCII character
      are returned as they are; any other path has its backslashes turned into
      slashes. */
  function ToUnixPath(p: string): (r: string)
    ensures |r| == |p|
    ensures IsExtendedLengthPath(p) || HasNonAscii(p) ==> r == p
  {
    if IsExtendedLengthPath(p) || HasNonAscii(p) then p else SlashesForBackslashes(p)
  }

  /** A converted path keeps every other character in place and has no
      backslash left. */
  lemma ToUnixPathConverts(p: string)
    requires !IsExtendedLengthPath(p) && !HasNonAscii(p)
    ensures forall i :: 0 <= i < |p| ==> ToUnixPath(p)[i] != '\\'
    ensures forall i :: 0 <= i < |p| && p[i] != '\\' ==> ToUnixPath(p)[i] == p[i]
  {
  }

  /** Replacing backslashes leaves a path without any unchanged. */
  lemma SlashesForBackslashesNoop(p: string)
    requires forall i :: 0 <= i < |p| ==> p[i] != '\\'
    ensures SlashesForBackslashes(p) == p
  {
  }

  /** Normalising twice is normalising once. */
  lemma ToUnixPathIdempotent(p: string)
    ensures ToUnixPath(ToUnixPath(p)) == ToUnixPath(p)
  {
    if !IsExtendedLengthPath(p) && !HasNonAscii(p) {
      var r := ToUnixPath(p);
      assert r == SlashesForBackslashes(p);
      assert !IsExtendedLengthPath(r) by {
        if |ExtendedLengthPrefix| <= |r| {
          assert r[0] != ExtendedLengthPrefix[0];
        }
      }
      assert !HasNonAscii(r) by {
        forall i | 0 <= i < |r|
          ensures r[i] <= '\U{0080}'
        {
          assert !(p[i] > '\U{0080}');
        }
      }
      ToUnixPathConverts(p);
      SlashesForBackslashesNoop(r);
    }
  }

  // ---------------------------------------------------------------------------
  // Manifest validation

  /** A module of the build manifest: its name and its directory below the base. */
  datatype BuildModule = BuildModule(name: string, sourceDir: string)

  /** Why `pack` refuses a build manifest. */
  datatype ManifestError =
    | ReservedModuleName(name: string)
    | NestedModule(outer: string, inner: string)
    | DuplicateModuleName(name: string)

  /** `toLowerCase` on one character, for ASCII letters (the only characters
      whose lower case can be one of the letters of `base` or `full`). */
  function LowerChar(c: char): char {
    if 'A' <= c <= 'Z' then (c as int + 32) as char else c
  }

  function AsciiLower(s: string): string
  {
    seq(|s|, i requires 0 <= i < |s| => LowerChar(s[i]))
  }

  /** Two characters are the same up to the case of an ASCII letter. */
  predicate SameIgnoringCase(a: char, b: char) {
    || a == b
    || ('A' <= a <= 'Z' && b as int == a as int + 32)
    || ('A' <= b <= 'Z' && a as int == b as int + 32)
  }

  /** `a` and `b` are the same string up to the case of ASCII letters. */
  predicate EqualIgnoringCase(a: string, b: string) {
    |a| == |b| && forall i :: 0 <= i < |a| ==> SameIgnoringCase(a[i], b[i])
  }

  /** Lower-casing identifies exactly the strings that differ only in the
      case of their letters. */
  lemma AsciiLowerCaseBlind(a: string, b: string)
    ensures AsciiLower(a) == AsciiLower(b) <==> EqualIgnoringCase(a, b)
  {
    if AsciiLower(a) == AsciiLower(b) {
      forall i | 0 <= i < |a| ensures SameIgnoringCase(a[i], b[i]) {
        assert LowerChar(a[i]) == AsciiLower(b)[i] == LowerChar(b[i]);
      }
    }
  }

  /** Lower-casing leaves no upper-case letter, so doing it twice is doing it once. */
  lemma AsciiLowerIdempotent(s: string)
    ensures forall i :: 0 <= i < |s| ==> !('A' <= AsciiLower(s)[i] <= 'Z')
    ensures AsciiLower(AsciiLower(s)) == AsciiLower(s)
  {
  }

  /** `['base', 'full'].includes(name.toLowerCase())`. */
  predicate IsReservedName(name: string) {
    AsciiLower(name) == "base" || AsciiLower(name) == "full"
  }

  /** A name is reserved exactly when it is `base` or `full` in any mix of
      letter cases. */
  lemma ReservedNameIff(name: string)
    ensures IsReservedName(name) <==> EqualIgnoringCase(name, "base") || EqualIgnoringCase(name, "full")
  {
    assert AsciiLower("base") == "base";
    assert AsciiLower("full") == "full";
    AsciiLowerCaseBlind(name, "base");
    AsciiLowerCaseBlind(name, "full");
  }

  /** The reserved names are matched in any letter case, and only as whole names. */
  lemma ReservedNamesAnyCase()
    ensures IsReservedName("Base") && IsReservedName("FULL") && IsReservedName("fUlL")
    ensures !IsReservedName("baseline") && !IsReservedName("full ")
  {
    assert AsciiLower("Base") == "base";
    assert AsciiLower("FULL") == "full";
    assert AsciiLower("fUlL") == "full";
    assert |AsciiLower("baseline")| == 8;
    assert |AsciiLower("full ")| == 5;
  }

  /** `path.relative(from, to)`, left uninterpreted. */
  type Relative = (string, string) -> string

  /** Module `b` lies outside module `a`: the relative path from `a` to `b`
      climbs out of `a`. */
  predicate Outside(relative: Relative, a: BuildModule, b: BuildModule) {
    StartsWith(relative(a.sourceDir, b.sourceDir), "..")
  }

  // The declarative conditions a valid manifest meets.

  predicate NoReservedNames(ms: seq<BuildModule>) {
    forall i :: 0 <= i < |ms| ==> !IsReservedName(ms[i].name)
  }

  predicate NoNesting(ms: seq<BuildModule>, relative: Relative) {
    forall i, j :: 0 <= i < |ms| && 0 <= j < |ms| && i != j ==> Outside(relative, ms[i], ms[j])
  }

  predicate NamesNonEmpty(ms: seq<BuildModule>) {
    forall i :: 0 <= i < |ms| ==> ms[i].name != ""
  }

  predicate NamesUnique(ms: seq<BuildModule>) {
    forall i, j :: 0 <= i < j < |ms| ==> ms[i].name != ms[j].name
  }

  predicate ManifestValid(ms: seq<BuildModule>, relative: Relative) {
    NoReservedNames(ms) && NoNesting(ms, relative) && NamesNonEmpty(ms) && NamesUnique(ms)
  }

  // The order in which the validation loops find the first problem.

  /** The first module from `b` on that module `a` contains. */
  function NestingError(ms: seq<BuildModule>, relative: Relative, a: nat, b: nat): (r: Option<ManifestError>)
    requires a < |ms| && b <= |ms|
    ensures r.Some? ==> r.value.NestedModule? && r.value.outer == ms[a].name
    decreases |ms| - b
  {
    if b == |ms| then None
    else if a != b && !Outside(relative, ms[a], ms[b]) then Some(NestedModule(ms[a].name, ms[b].name))
    else NestingError(ms, relative, a, b + 1)
  }

  /** The first reserved name or nesting, scanning the modules from `a` on. */
  function ShapeError(ms: seq<BuildModule>, relative: Relative, a: nat): (r: Option<ManifestError>)
    requires a <= |ms|
    ensures r.Some? ==> !r.value.DuplicateModuleName?
    decreases |ms| - a
  {
    if a == |ms| then None
    else if IsReservedName(ms[a].name) then Some(ReservedModuleName(ms[a].name))
    else if NestingError(ms, relative, a, 0).Some? then NestingError(ms, relative, a, 0)
    else ShapeError(ms, relative, a + 1)
  }

  /** The first name from module `i` on that is already among `seen`. */
  function DuplicateError(ms: seq<BuildModule>, seen: seq<string>, i: nat): (r: Option<ManifestError>)
    requires i <= |ms|
    ensures r.Some? ==> r.value.DuplicateModuleName?
    decreases |ms| - i
  {
    if i == |ms| then None
    else if ms[i].name in seen then Some(DuplicateModuleName(ms[i].name))
    else DuplicateError(ms, seen + [ms[i].name], i + 1)
  }

  /** What validation throws, if anything: reserved names and nesting are
      checked first, for all modules, then names; the list of seen names
      starts with the empty name. */
  function ManifestCheck(ms: seq<BuildModule>, relative: Relative): Option<ManifestError> {
    var shape := ShapeError(ms, relative, 0);
    if shape.Some? then shape else DuplicateError(ms, [""], 0)
  }

  lemma {:induction false} NestingErrorNone(ms: seq<BuildModule>, relative: Relative, a: nat, b: nat)
    requires a < |ms| && b <= |ms|
    ensures NestingError(ms, relative, a, b).None? <==>
      forall j :: b <= j < |ms| && j != a ==> Outside(relative, ms[a], ms[j])
    decreases |ms| - b
  {
    if b < |ms| {
      NestingErrorNone(ms, relative, a, b + 1);
    }
  }

  lemma {:induction false} ShapeErrorNone(ms: seq<BuildModule>, relative: Relative, a: nat)
    requires a <= |ms|
    ensures ShapeError(ms, relative, a).None? <==>
      forall i :: a <= i < |ms| ==>
        !IsReservedName(ms[i].name) && forall j :: 0 <= j < |ms| && j != i ==> Outside(relative, ms[i], ms[j])
    decreases |ms| - a
  {
    if a < |ms| {
      NestingErrorNone(ms, relative, a, 0);
      ShapeErrorNone(ms, relative, a + 1);
    }
  }

  lemma {:induction false} DuplicateErrorNone(ms: seq<BuildModule>, seen: seq<string>, i: nat)
    requires i <= |ms|
    ensures DuplicateError(ms, seen, i).None? <==>
      (forall k :: i <= k < |ms| ==> ms[k].name !in seen) &&
      (forall k, l :: i <= k < l < |ms| ==> ms[k].name != ms[l].name)
    decreases |ms| - i
  {
    if i < |ms| {
      DuplicateErrorNone(ms, seen + [ms[i].name], i + 1);
    }
  }

  /** Validation passes exactly when the manifest is valid: no reserved
      name, no module inside another, no empty name, no repeated name. */
  lemma ManifestCheckNoneIff(ms: seq<BuildModule>, relative: Relative)
    ensures ManifestCheck(ms, relative).None? <==> ManifestValid(ms, relative)
  {
    ShapeErrorNone(ms, relative, 0);
    DuplicateErrorNone(ms, [""], 0);
  }

  lemma {:induction false} NestingErrorSound(ms: seq<BuildModule>, relative: Relative, a: nat, b: nat)
    requires a < |ms| && b <= |ms| && NestingError(ms, relative, a, b).Some?
    ensures exists j :: (b <= j < |ms| && j != a &&
      NestingError(ms, relative, a, b).value == NestedModule(ms[a].name, ms[j].name) &&
      !Outside(relative, ms[a], ms[j]))
    decreases |ms| - b
  {
    if a != b && !Outside(relative, ms[a], ms[b]) {
      assert NestingError(ms, relative, a, b).value == NestedModule(ms[a].name, ms[b].name);
    } else {
      NestingErrorSound(ms, relative, a, b + 1);
    }
  }

  lemma {:induction false} ShapeErrorSound(ms: seq<BuildModule>, relative: Relative, a: nat)
    requires a <= |ms| && ShapeError(ms, relative, a).Some?
    ensures match ShapeError(ms, relative, a).value
      case ReservedModuleName(n) => exists i :: a <= i < |ms| && ms[i].name == n && IsReservedName(n)
      case NestedModule(x, y) =>
        exists i, j :: a <= i < |ms| && 0 <= j < |ms| && i != j &&
          ms[i].name == x && ms[j].name == y && !Outside(relative, ms[i], ms[j])
      case DuplicateModuleName(_) => false
    decreases |ms| - a
  {
    if IsReservedName(ms[a].name) {
      assert ms[a].name == ShapeError(ms, relative, a).value.name;
    } else if NestingError(ms, relative, a, 0).Some? {
      NestingErrorSound(ms, relative, a, 0);
    } else {
      ShapeErrorSound(ms, relative, a + 1);
    }
  }

  lemma {:induction false} DuplicateErrorSound(ms: seq<BuildModule>, seen: seq<string>, i: nat)
    requires i <= |ms| && DuplicateError(ms, seen, i).Some?
    ensures var n := DuplicateError(ms, seen, i).value.name;
      exists k :: i <= k < |ms| && ms[k].name == n && (n in seen || exists l :: i <= l < k && ms[l].name == n)
    decreases |ms| - i
  {
    var n := DuplicateError(ms, seen, i).value.name;
    if ms[i].name in seen {
      assert ms[i].name == n;
    } else {
      DuplicateErrorSound(ms, seen + [ms[i].name], i + 1);
      var k :| i + 1 <= k < |ms| && ms[k].name == n &&
        (n in seen + [ms[i].name] || exists l :: i + 1 <= l < k && ms[l].name == n);
      if n !in seen && n == ms[i].name {
        assert i < k && ms[i].name == n;
      }
    }
  }

  /** Every error validation reports names a real problem: a reserved name, a
      module whose directory the other's relative path does not leave, or a
      name that is empty or used by an earlier module. A duplicate is only
      reported for a manifest free of reserved names and nesting. */
  lemma ManifestCheckSound(ms: seq<BuildModule>, relative: Relative)
    requires ManifestCheck(ms, relative).Some?
    ensures match ManifestCheck(ms, relative).value
      case ReservedModuleName(n) => exists i :: 0 <= i < |ms| && ms[i].name == n && IsReservedName(n)
      case NestedModule(x, y) =>
        exists i, j :: 0 <= i < |ms| && 0 <= j < |ms| && i != j &&
          ms[i].name == x && ms[j].name == y && !Outside(relative, ms[i], ms[j])
      case DuplicateModuleName(n) =>
        && NoReservedNames(ms) && NoNesting(ms, relative)
        && exists k :: 0 <= k < |ms| && ms[k].name == n && (n == "" || exists l :: 0 <= l < k && ms[l].name == n)
  {
    if ShapeError(ms, relative, 0).Some? {
      ShapeErrorSound(ms, relative, 0);
    } else {
      ShapeErrorNone(ms, relative, 0);
      DuplicateErrorSound(ms, [""], 0);
    }
  }

  /** Two modules sharing a source directory are refused (`path.relative`
      of a directory to itself is empty, which does not start with `..`). */
  lemma SharedSourceDirRefused(ms: seq<BuildModule>, relative: Relative, i: nat, j: nat)
    requires i < |ms| && j < |ms| && i != j && ms[i].sourceDir == ms[j].sourceDir
    requires relative(ms[i].sourceDir, ms[i].sourceDir) == ""
    ensures ManifestCheck(ms, relative).Some?
  {
    ManifestCheckNoneIff(ms, relative);
    assert !Outside(relative, ms[i], ms[j]);
  }

  /** A module without a name is refused, because the seen list starts with
      the empty name. */
  lemma EmptyNameRefused(ms: seq<BuildModule>, relative: Relative, i: nat)
    requires i < |ms| && ms[i].name == ""
    ensures ManifestCheck(ms, relative).Some?
  {
    ManifestCheckNoneIff(ms, relative);
  }

  /** The validation loops of `pack`: every module against the reserved names
      and against every other module, then the names against those seen so far. */
  method ValidateModules(ms: seq<BuildModule>, relative: Relative) returns (r: Option<ManifestError>)
    ensures r == ManifestCheck(ms, relative)
    ensures r.None? <==> ManifestValid(ms, relative)
  {
    ManifestCheckNoneIff(ms, relative);
    var a := 0;
    while a < |ms|
      invariant a <= |ms|
      invariant ShapeError(ms, relative, 0) == ShapeError(ms, relative, a)
    {
      if IsReservedName(ms[a].name) {
        return Some(ReservedModuleName(ms[a].name));
      }
      var b := 0;
      while b < |ms|
        invariant b <= |ms|
        invariant NestingError(ms, relative, a, 0) == NestingError(ms, relative, a, b)
      {
        if a != b {
          var pathDiff := relative(ms[a].sourceDir, ms[b].sourceDir);
          if !StartsWith(pathDiff, "..") {
            return Some(NestedModule(ms[a].name, ms[b].name));
          }
        }
        b := b + 1;
      }
      a := a + 1;
    }
    var moduleNames := [""];
    var i := 0;
    while i < |ms|
      invariant i <= |ms|
      invariant DuplicateError(ms, [""], 0) == DuplicateError(ms, moduleNames, i)
    {
      if ms[i].name in moduleNames {
        return Some(DuplicateModuleName(ms[i].name));
      }
      moduleNames := moduleNames + [ms[i].name];
      i := i + 1;
    }
    return None;
  }
}
