/** `commandsDirectory` and `normalizeSeparators`: where, according to the
    PSR-4 section of composer.json, the classes of the commands namespace live.
    The manifest arrives already parsed, as its `autoload.psr-4` entries in
    declaration order; `None` stands for every way `psrMap` fails (no file, no
    JSON, no `autoload.psr-4`). */
module Manifest {
  import opened Outcomes
  import opened Text
  import opened NameTransform

  /** The `autoload.psr-4` entries: (namespace prefix, directory relative to composer.json). */
  type PsrMap = seq<(string, string)>

  /** `normalizeSeparators(path, current)` with `DIRECTORY_SEPARATOR == dirSep`. */
  function NormalizeSeparators(path: string, current: char, dirSep: char): string
  {
    if dirSep == current then path else ReplaceChar(path, current, dirSep)
  }

  /** The shortcut taken when the separators already agree changes nothing:
      the result is always the plain replacement. */
  lemma NormalizeIsReplacement(path: string, current: char, dirSep: char)
    ensures NormalizeSeparators(path, current, dirSep) == ReplaceChar(path, current, dirSep)
  {
    if dirSep == current {
      assert ReplaceChar(path, current, dirSep) == path;
    }
  }

  /** The result keeps the length and every other character, and no longer
      contains the old separator when it differs from the platform's. */
  lemma NormalizeReplacesOnlySeparator(path: string, current: char, dirSep: char)
    ensures |NormalizeSeparators(path, current, dirSep)| == |path|
    ensures forall i :: 0 <= i < |path| && path[i] != current ==> NormalizeSeparators(path, current, dirSep)[i] == path[i]
    ensures forall i :: 0 <= i < |path| && path[i] == current ==> NormalizeSeparators(path, current, dirSep)[i] == dirSep
    ensures current != dirSep ==> current !in NormalizeSeparators(path, current, dirSep)
  {
    if current != dirSep {
      ReplaceCharRemovesNeedle(path, current, dirSep);
    }
  }

  /** The segments of the normalised path are the segments of the input: each
      sub-namespace becomes one sub-directory. */
  lemma NormalizeKeepsSegments(path: string, current: char, dirSep: char)
    requires dirSep == current || dirSep !in path
    ensures Split(NormalizeSeparators(path, current, dirSep), dirSep) == Split(path, current)
  {
    if dirSep != current {
      ReplaceCharSplit(path, current, dirSep);
    }
  }

  // ---------------------------------------------------------------------------
  // Resolution as the loader performs it

  /** Line 106: the prefix, stripped of trailing '\', is a string prefix of the namespace. */
  predicate PrefixMatches(ns: string, prefix: string)
  {
    StartsWith(ns, TrimRight(prefix, NamespaceSeparator))
  }

  /** Lines 109-113 for the entry that matched:
      `rootDir SEP subDir SEP namespaceRemainder`. */
  function EntryDirectory(ns: string, entry: (string, string), rootDir: string, dirSep: char): string
  {
    var prefix := TrimRight(entry.0, NamespaceSeparator);
    var subDir := NormalizeSeparators(TrimRight(entry.1, ComposerDirectorySeparator), ComposerDirectorySeparator, dirSep);
    var namespaceDir := NormalizeSeparators(Drop(ns, |prefix| + 1), NamespaceSeparator, dirSep);
    rootDir + [dirSep] + subDir + [dirSep] + namespaceDir
  }

  /** `commandsDirectory`'s loop: the first entry, in declaration order,
      whose prefix matches decides the directory. */
  function Resolve(ns: string, psr: PsrMap, rootDir: string, dirSep: char): Result<string>
    decreases |psr|
  {
    if psr == [] then Err(NoPsr4Entry(ns))
    else if PrefixMatches(ns, psr[0].0) then Ok(EntryDirectory(ns, psr[0], rootDir, dirSep))
    else Resolve(ns, psr[1..], rootDir, dirSep)
  }

  /** The search fails, with the "no PSR-4 autoload entry" error, exactly when
      no entry matches; otherwise it yields the directory of the first entry
      that matches. */
  lemma {:induction false} ResolveSpec(ns: string, psr: PsrMap, rootDir: string, dirSep: char)
    ensures Resolve(ns, psr, rootDir, dirSep).Err? <==> forall i :: 0 <= i < |psr| ==> !PrefixMatches(ns, psr[i].0)
    ensures Resolve(ns, psr, rootDir, dirSep).Err? ==> Resolve(ns, psr, rootDir, dirSep).error == NoPsr4Entry(ns)
    ensures Resolve(ns, psr, rootDir, dirSep).Ok? ==>
      exists i :: 0 <= i < |psr| && PrefixMatches(ns, psr[i].0) &&
        (forall j :: 0 <= j < i ==> !PrefixMatches(ns, psr[j].0)) &&
        Resolve(ns, psr, rootDir, dirSep).value == EntryDirectory(ns, psr[i], rootDir, dirSep)
    decreases |psr|
  {
    if psr != [] && !PrefixMatches(ns, psr[0].0) {
      var tail := psr[1..];
      assert forall i :: 0 <= i < |tail| ==> tail[i] == psr[i + 1];
      ResolveSpec(ns, tail, rootDir, dirSep);
      var r := Resolve(ns, tail, rootDir, dirSep);
      if r.Ok? {
        var i :| 0 <= i < |tail| && PrefixMatches(ns, tail[i].0) &&
          (forall j :: 0 <= j < i ==> !PrefixMatches(ns, tail[j].0)) &&
          r.value == EntryDirectory(ns, tail[i], rootDir, dirSep);
        assert psr[i + 1] == tail[i];
      }
    }
  }

  /** One step of the search. */
  lemma ResolveStep(ns: string, psr: PsrMap, rootDir: string, dirSep: char)
    requires psr != []
    ensures Resolve(ns, psr, rootDir, dirSep) ==
      if PrefixMatches(ns, psr[0].0) then Ok(EntryDirectory(ns, psr[0], rootDir, dirSep))
      else Resolve(ns, psr[1..], rootDir, dirSep)
  {
  }

  /** `psrMap()` followed by the search. */
  function ResolveManifest(manifest: Option<PsrMap>, ns: string, rootDir: string, dirSep: char): Result<string>
  {
    match manifest
    case None => Err(ManifestInvalid)
    case Some(psr) => Resolve(ns, psr, rootDir, dirSep)
  }

  /** The converse of the search's contract: the first matching entry decides. */
  lemma {:induction false} ResolveFirstMatch(ns: string, psr: PsrMap, rootDir: string, dirSep: char, i: nat)
    requires i < |psr| && PrefixMatches(ns, psr[i].0)
    requires forall j :: 0 <= j < i ==> !PrefixMatches(ns, psr[j].0)
    ensures Resolve(ns, psr, rootDir, dirSep) == Ok(EntryDirectory(ns, psr[i], rootDir, dirSep))
    decreases i
  {
    ResolveStep(ns, psr, rootDir, dirSep);
    if i > 0 {
      var tail := psr[1..];
      assert forall j :: 0 <= j < |tail| ==> tail[j] == psr[j + 1];
      ResolveFirstMatch(ns, tail, rootDir, dirSep, i - 1);
    }
  }

  /** Entries declared after a matching one are never consulted. */
  lemma ResolveIgnoresLaterEntries(ns: string, psr: PsrMap, later: PsrMap, rootDir: string, dirSep: char)
    requires Resolve(ns, psr, rootDir, dirSep).Ok?
    ensures Resolve(ns, psr + later, rootDir, dirSep) == Resolve(ns, psr, rootDir, dirSep)
  {
    ResolveSpec(ns, psr, rootDir, dirSep);
    var i :| 0 <= i < |psr| && PrefixMatches(ns, psr[i].0) &&
             (forall j :: 0 <= j < i ==> !PrefixMatches(ns, psr[j].0)) &&
             Resolve(ns, psr, rootDir, dirSep).value == EntryDirectory(ns, psr[i], rootDir, dirSep);
    var all := psr + later;
    assert forall j :: 0 <= j < |psr| ==> all[j] == psr[j];
    ResolveFirstMatch(ns, all, rootDir, dirSep, i);
  }

  // ---------------------------------------------------------------------------
  // Resolution as PSR-4 intends it

  /** A prefix matches at a namespace-segment boundary: the empty prefix
      matches everything, any other prefix the namespace itself or the
      namespace's leading segments. */
  predicate Psr4PrefixMatches(ns: string, prefix: string)
  {
    var p := TrimRight(prefix, NamespaceSeparator);
    p == [] || ns == p || StartsWith(ns, p + [NamespaceSeparator])
  }

  /** The sub-namespace left after the prefix and its separator. */
  function Psr4Remainder(ns: string, prefix: string): string
  {
    var p := TrimRight(prefix, NamespaceSeparator);
    if p == [] then ns else Drop(ns, |p| + 1)
  }

  /** The prefix and the remainder put back together give the namespace. */
  predicate SplitsNamespace(ns: string, p: string, remainder: string)
  {
    if p == [] then remainder == ns
    else (ns == p && remainder == []) || ns == p + [NamespaceSeparator] + remainder
  }

  lemma Psr4RemainderSplits(ns: string, prefix: string)
    requires Psr4PrefixMatches(ns, prefix)
    ensures SplitsNamespace(ns, TrimRight(prefix, NamespaceSeparator), Psr4Remainder(ns, prefix))
  {
    var p := TrimRight(prefix, NamespaceSeparator);
    if p != [] && ns != p {
      assert ns == ns[..|p| + 1] + ns[|p| + 1..];
    }
  }

  function Psr4EntryDirectory(ns: string, entry: (string, string), rootDir: string, dirSep: char): string
  {
    var subDir := NormalizeSeparators(TrimRight(entry.1, ComposerDirectorySeparator), ComposerDirectorySeparator, dirSep);
    var namespaceDir := NormalizeSeparators(Psr4Remainder(ns, entry.0), NamespaceSeparator, dirSep);
    rootDir + [dirSep] + subDir + [dirSep] + namespaceDir
  }

  /** The corrected search: first entry in declaration order that matches at a
      segment boundary, and the directory is built from a remainder that, put
      after the prefix, gives back the namespace. */
  function ResolvePsr4(ns: string, psr: PsrMap, rootDir: string, dirSep: char): (r: Result<string>)
    ensures r.Err? <==> forall i :: 0 <= i < |psr| ==> !Psr4PrefixMatches(ns, psr[i].0)
    ensures r.Err? ==> r.error == NoPsr4Entry(ns)
    ensures r.Ok? ==>
      exists i :: 0 <= i < |psr| && Psr4PrefixMatches(ns, psr[i].0) &&
        (forall j :: 0 <= j < i ==> !Psr4PrefixMatches(ns, psr[j].0)) &&
        SplitsNamespace(ns, TrimRight(psr[i].0, NamespaceSeparator), Psr4Remainder(ns, psr[i].0)) &&
        r.value == Psr4EntryDirectory(ns, psr[i], rootDir, dirSep)
    decreases |psr|
  {
    if psr == [] then Err(NoPsr4Entry(ns))
    else if Psr4PrefixMatches(ns, psr[0].0) then
      Psr4RemainderSplits(ns, psr[0].0);
      Ok(Psr4EntryDirectory(ns, psr[0], rootDir, dirSep))
    else
      var tail := psr[1..];
      assert forall i :: 0 <= i < |tail| ==> tail[i] == psr[i + 1];
      ResolvePsr4(ns, tail, rootDir, dirSep)
  }

  /** Where the two agree: a prefix that is the whole namespace or ends at one
      of its segment boundaries gives the same directory either way. */
  lemma EntryDirectoryAgreesAtBoundary(ns: string, entry: (string, string), rootDir: string, dirSep: char)
    requires TrimRight(entry.0, NamespaceSeparator) != []
    requires Psr4PrefixMatches(ns, entry.0)
    ensures PrefixMatches(ns, entry.0)
    ensures EntryDirectory(ns, entry, rootDir, dirSep) == Psr4EntryDirectory(ns, entry, rootDir, dirSep)
  {
    var p := TrimRight(entry.0, NamespaceSeparator);
    if ns != p {
      assert ns[..|p|] == (p + [NamespaceSeparator])[..|p|];
    }
  }

  /** No entry has an empty prefix, and every prefix the loader's test accepts
      ends at a segment boundary of `ns`. */
  predicate BoundaryPrefixes(ns: string, psr: PsrMap)
  {
    forall i :: 0 <= i < |psr| ==>
      TrimRight(psr[i].0, NamespaceSeparator) != [] &&
      (PrefixMatches(ns, psr[i].0) ==> Psr4PrefixMatches(ns, psr[i].0))
  }

  /** On a manifest free of both defects the loader's search is the PSR-4 one. */
  lemma {:induction false} ResolveAgreesWithPsr4(ns: string, psr: PsrMap, rootDir: string, dirSep: char)
    requires BoundaryPrefixes(ns, psr)
    ensures Resolve(ns, psr, rootDir, dirSep) == ResolvePsr4(ns, psr, rootDir, dirSep)
    decreases |psr|
  {
    if psr != [] {
      ResolveStep(ns, psr, rootDir, dirSep);
      if PrefixMatches(ns, psr[0].0) {
        EntryDirectoryAgreesAtBoundary(ns, psr[0], rootDir, dirSep);
      } else {
        if Psr4PrefixMatches(ns, psr[0].0) {
          EntryDirectoryAgreesAtBoundary(ns, psr[0], rootDir, dirSep);
        }
        assert forall i :: 0 <= i < |psr[1..]| ==> psr[1..][i] == psr[i + 1];
        ResolveAgreesWithPsr4(ns, psr[1..], rootDir, dirSep);
      }
    }
  }

  // ---------------------------------------------------------------------------
  // Where the loader's search departs from PSR-4

  lemma EntryDirectoryShape(ns: string, entry: (string, string), rootDir: string, dirSep: char, dir: string)
    requires NormalizeSeparators(TrimRight(entry.1, ComposerDirectorySeparator), ComposerDirectorySeparator, dirSep) + [dirSep] +
             NormalizeSeparators(Drop(ns, |TrimRight(entry.0, NamespaceSeparator)| + 1), NamespaceSeparator, dirSep) == dir
    ensures EntryDirectory(ns, entry, rootDir, dirSep) == rootDir + [dirSep] + dir
  {
  }

  lemma Psr4EntryDirectoryShape(ns: string, entry: (string, string), rootDir: string, dirSep: char, dir: string)
    requires NormalizeSeparators(TrimRight(entry.1, ComposerDirectorySeparator), ComposerDirectorySeparator, dirSep) + [dirSep] +
             NormalizeSeparators(Psr4Remainder(ns, entry.0), NamespaceSeparator, dirSep) == dir
    ensures Psr4EntryDirectory(ns, entry, rootDir, dirSep) == rootDir + [dirSep] + dir
  {
  }

  lemma ResolveSingleMatch(ns: string, entry: (string, string), rootDir: string, dirSep: char, dir: string)
    requires PrefixMatches(ns, entry.0) && EntryDirectory(ns, entry, rootDir, dirSep) == dir
    ensures Resolve(ns, [entry], rootDir, dirSep) == Ok(dir)
  {
    ResolveStep(ns, [entry], rootDir, dirSep);
  }

  lemma ResolvePsr4SingleMatch(ns: string, entry: (string, string), rootDir: string, dirSep: char, dir: string)
    requires Psr4PrefixMatches(ns, entry.0) && Psr4EntryDirectory(ns, entry, rootDir, dirSep) == dir
    ensures ResolvePsr4(ns, [entry], rootDir, dirSep) == Ok(dir)
  {
  }

  lemma ResolvePsr4SingleMiss(ns: string, entry: (string, string), rootDir: string, dirSep: char)
    requires !Psr4PrefixMatches(ns, entry.0)
    ensures ResolvePsr4(ns, [entry], rootDir, dirSep) == Err(NoPsr4Entry(ns))
  {
  }

  lemma SubDirOfSrc()
    ensures NormalizeSeparators(TrimRight("src/", '/'), '/', '/') == "src"
  {
    assert TrimRight("src/", '/') == TrimRight("src", '/');
  }

  lemma AppPrefixTrimmed()
    ensures TrimRight("App\\", '\\') == "App"
  {
    assert TrimRight("App\\", '\\') == TrimRight("App", '\\');
  }

  lemma AppPrefixMatchesApplication()
    ensures PrefixMatches("Application\\Command", "App\\")
  {
    AppPrefixTrimmed();
    assert "Application\\Command"[..3] == "App";
  }

  lemma AppPrefixMissesApplication()
    ensures !Psr4PrefixMatches("Application\\Command", "App\\")
    ensures !SplitsNamespace("Application\\Command", "App", Drop("Application\\Command", 4))
  {
    AppPrefixTrimmed();
    assert "Application\\Command"[3] == 'l';
  }

  lemma ApplicationRemainder()
    ensures NormalizeSeparators(Drop("Application\\Command", 4), '\\', '/') == "ication/Command"
  {
    assert Drop("Application\\Command", 4) == "ication\\Command";
  }

  lemma ApplicationDirectoryText()
    ensures "src" + ['/'] + "ication/Command" == "src/ication/Command"
    ensures "/proj" + ['/'] + "src/ication/Command" == "/proj/src/ication/Command"
  {
  }

  lemma ApplicationResolves()
    ensures Resolve("Application\\Command", [("App\\", "src/")], "/proj", '/') == Ok("/proj/src/ication/Command")
  {
    AppPrefixMatchesApplication();
    AppPrefixTrimmed();
    SubDirOfSrc();
    ApplicationRemainder();
    ApplicationDirectoryText();
    EntryDirectoryShape("Application\\Command", ("App\\", "src/"), "/proj", '/', "src/ication/Command");
    ResolveSingleMatch("Application\\Command", ("App\\", "src/"), "/proj", '/', "/proj/src/ication/Command");
  }

  /** With the valid prefix `App\`, line 105 leaves `App`, which line 106 finds
      at the start of `Application\Command`; the directory then ends in
      `ication/Command`, a path no PSR-4 class of that namespace lives under. */
  lemma PrefixMatchesInsideSegment()
    ensures PrefixMatches("Application\\Command", "App\\")
    ensures Resolve("Application\\Command", [("App\\", "src/")], "/proj", '/') == Ok("/proj/src/ication/Command")
    ensures !SplitsNamespace("Application\\Command", "App", Drop("Application\\Command", 4))
    ensures ResolvePsr4("Application\\Command", [("App\\", "src/")], "/proj", '/') == Err(NoPsr4Entry("Application\\Command"))
  {
    AppPrefixMatchesApplication();
    ApplicationResolves();
    AppPrefixMissesApplication();
    ResolvePsr4SingleMiss("Application\\Command", ("App\\", "src/"), "/proj", '/');
  }

  lemma EmptyPrefixFacts()
    ensures TrimRight("", '\\') == ""
    ensures PrefixMatches("App\\Command", "") && Psr4PrefixMatches("App\\Command", "")
    ensures Psr4Remainder("App\\Command", "") == "App\\Command"
  {
  }

  lemma EmptyPrefixRemainders()
    ensures NormalizeSeparators(Drop("App\\Command", 1), '\\', '/') == "pp/Command"
    ensures NormalizeSeparators("App\\Command", '\\', '/') == "App/Command"
  {
    assert Drop("App\\Command", 1) == "pp\\Command";
  }

  lemma EmptyPrefixDirectoryText()
    ensures "src" + ['/'] + "pp/Command" == "src/pp/Command"
    ensures "/proj" + ['/'] + "src/pp/Command" == "/proj/src/pp/Command"
  {
  }

  lemma FallbackDirectoryText()
    ensures "src" + ['/'] + "App/Command" == "src/App/Command"
    ensures "/proj" + ['/'] + "src/App/Command" == "/proj/src/App/Command"
  {
  }

  /** The empty prefix `""` (PSR-4's fallback) matches every namespace, but
      line 111 still skips one character for the missing separator: the first
      letter of the namespace is lost. */
  lemma EmptyPrefixDropsFirstCharacter()
    ensures Resolve("App\\Command", [("", "src/")], "/proj", '/') == Ok("/proj/src/pp/Command")
    ensures ResolvePsr4("App\\Command", [("", "src/")], "/proj", '/') == Ok("/proj/src/App/Command")
  {
    EmptyPrefixFacts();
    EmptyPrefixRemainders();
    SubDirOfSrc();
    EmptyPrefixDirectoryText();
    FallbackDirectoryText();
    EntryDirectoryShape("App\\Command", ("", "src/"), "/proj", '/', "src/pp/Command");
    Psr4EntryDirectoryShape("App\\Command", ("", "src/"), "/proj", '/', "src/App/Command");
    ResolveSingleMatch("App\\Command", ("", "src/"), "/proj", '/', "/proj/src/pp/Command");
    ResolvePsr4SingleMatch("App\\Command", ("", "src/"), "/proj", '/', "/proj/src/App/Command");
  }
}
