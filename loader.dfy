/** `NamespaceCommandLoader`: the lazy console command loader, with its caches
    of class names, of constructed commands and of the root directory.

    What the loader reaches outside itself is given to it:
    - `composerDir` is `dirname(realpath($composerJson))`;
    - `manifest` is what `psrMap()` yields (`None` when it throws);
    - `classes` is the set of class names `class_exists` reports, and
      `new $class()` on one of them yields a fresh `Command`;
    - `dirSep` is PHP's `DIRECTORY_SEPARATOR`;
    - the recursive directory scan is the `scan` argument of `GetNames`. */
module Loader {
  import opened Outcomes
  import opened Text
  import opened NameTransform
  import opened Manifest

  /** The namespace a loader uses when none is given. */
  const DefaultNamespace: string := "App\\Command"

  /** A constructed console command; only its class matters here. */
  class Command {
    const className: string

    constructor (className: string)
      ensures this.className == className
    {
      this.className := className;
    }
  }

  /** What `getNames` reports for a directory lookup and a scan: the lookup's
      error, the scan's failure, or one name per matched path in scan order. */
  function EnumeratedNames(dir: Result<string>, scan: string -> Option<seq<string>>): Result<seq<string>>
  {
    match dir
    case Err(e) => Err(e)
    case Ok(d) =>
      match scan(d)
      case None => Err(DirectoryUnreadable(d))
      case Some(paths) => Ok(seq(|paths|, i requires 0 <= i < |paths| => NameOfPath(paths[i], |d| + 1)))
  }

  /** A successful scan yields exactly the names given path by path. */
  lemma EnumeratedNamesOfScan(d: string, scan: string -> Option<seq<string>>, names: seq<string>)
    requires scan(d).Some? && |names| == |scan(d).value|
    requires forall k :: 0 <= k < |names| ==> names[k] == NameOfPath(scan(d).value[k], |d| + 1)
    ensures EnumeratedNames(Ok(d), scan) == Ok(names)
  {
    var paths := scan(d).value;
    assert names == seq(|paths|, k requires 0 <= k < |paths| => NameOfPath(paths[k], |d| + 1));
  }

  class NamespaceCommandLoader {
    const composerDir: string
    const manifest: Option<PsrMap>
    const classes: set<string>
    const dirSep: char
    const commandsNameSpace: string
    /** Cache of `commandClassName`, keyed by console name. */
    var classNames: map<string, string>
    /** Cache of `get`, keyed by console name. */
    var commands: map<string, Command>
    var rootDir: Option<string>

    /** The namespace carries no outer '\'; every cached class name is the one
        `commandClassName` would compute; every cached command was built from
        the cached class name of its console name, which therefore exists. */
    ghost predicate Valid()
      reads this
    {
      (|commandsNameSpace| > 0 ==>
        commandsNameSpace[0] != NamespaceSeparator && commandsNameSpace[|commandsNameSpace| - 1] != NamespaceSeparator) &&
      (forall n :: n in classNames ==> classNames[n] == ClassName(commandsNameSpace, n)) &&
      (forall n :: n in commands ==>
        n in classNames && commands[n].className == classNames[n] && classNames[n] in classes) &&
      (rootDir.Some? ==> rootDir.value == composerDir)
    }

    /** `__construct`: the namespace is stored without leading or trailing '\';
        nothing is cached yet. */
    constructor (composerDir: string, manifest: Option<PsrMap>, classes: set<string>, dirSep: char,
                 commandsNameSpace: string := DefaultNamespace)
      ensures Valid()
      ensures this.composerDir == composerDir && this.manifest == manifest
      ensures this.classes == classes && this.dirSep == dirSep
      ensures this.commandsNameSpace == Trim(commandsNameSpace, NamespaceSeparator)
      ensures classNames == map[] && commands == map[] && rootDir == None
    {
      this.composerDir := composerDir;
      this.manifest := manifest;
      this.classes := classes;
      this.dirSep := dirSep;
      this.commandsNameSpace := Trim(commandsNameSpace, NamespaceSeparator);
      classNames := map[];
      commands := map[];
      rootDir := None;
    }

    /** `get($name)`: the cached command if there is one, and nothing changes;
        otherwise the class name is computed (and cached) and, when the class
        exists, a new command is built and cached under exactly `name`. */
    method Get(name: string) returns (r: Result<Command>)
      requires Valid()
      modifies this`classNames, this`commands
      ensures Valid()
      ensures name in old(commands) ==>
        r == Ok(old(commands)[name]) && commands == old(commands) && classNames == old(classNames)
      ensures name !in old(commands) ==>
        var cls := ClassName(commandsNameSpace, name);
        classNames == old(classNames)[name := cls] &&
        if cls in classes then
          r.Ok? && fresh(r.value) && r.value.className == cls && commands == old(commands)[name := r.value]
        else
          r == Err(ClassNotFound(cls)) && commands == old(commands)
    {
      if name in commands {
        return Ok(commands[name]);
      }
      var cls := CommandClassName(name);
      if cls !in classes {
        return Err(ClassNotFound(cls));
      }
      var command := new Command(cls);
      commands := commands[name := command];
      r := Ok(command);
    }

    /** `has($name)`: true at once for a cached command, otherwise whether the
        computed class exists; either way that is exactly whether the class of
        `name` exists, so `has` answers true precisely when `get` succeeds. */
    method Has(name: string) returns (b: bool)
      requires Valid()
      modifies this`classNames
      ensures Valid()
      ensures b == (name in old(commands) || ClassName(commandsNameSpace, name) in classes)
      ensures b == (ClassName(commandsNameSpace, name) in classes)
      ensures name in old(commands) ==> classNames == old(classNames)
      ensures name !in old(commands) ==> classNames == old(classNames)[name := ClassName(commandsNameSpace, name)]
    {
      if name in commands {
        return true;
      }
      var cls := CommandClassName(name);
      b := cls in classes;
    }

    /** `commandClassName($name)`: `<namespace>\<PascalCase segments>Command`,
        memoised: the cache gains at most the entry for `name` and keeps every
        other entry. */
    method CommandClassName(name: string) returns (cls: string)
      requires Valid()
      modifies this`classNames
      ensures Valid()
      ensures cls == ClassName(commandsNameSpace, name)
      ensures classNames == old(classNames)[name := cls]
    {
      if name in classNames {
        return classNames[name];
      }
      cls := commandsNameSpace + [NamespaceSeparator] + CommandToClassRelated(name) + ClassSuffix;
      classNames := classNames[name := cls];
    }

    /** `rootDir()`: the directory of composer.json, computed once. */
    method RootDir() returns (dir: string)
      requires Valid()
      modifies this`rootDir
      ensures Valid()
      ensures dir == composerDir && rootDir == Some(composerDir)
    {
      if rootDir.None? {
        rootDir := Some(composerDir);
      }
      dir := rootDir.value;
    }

    /** `commandsDirectory()`: the manifest's failure, or the directory of the
        first PSR-4 entry whose prefix matches, or the "no entry" error. */
    method CommandsDirectory() returns (r: Result<string>)
      requires Valid()
      modifies this`rootDir
      ensures Valid()
      ensures r == ResolveManifest(manifest, commandsNameSpace, composerDir, dirSep)
      ensures rootDir == if r.Ok? then Some(composerDir) else old(rootDir)
    {
      var ns := commandsNameSpace;
      if manifest.None? {
        return Err(ManifestInvalid);
      }
      var psr := manifest.value;
      var i := 0;
      while i < |psr|
        invariant 0 <= i <= |psr|
        invariant Resolve(ns, psr[i..], composerDir, dirSep) == Resolve(ns, psr, composerDir, dirSep)
        invariant Valid() && rootDir == old(rootDir)
      {
        ResolveStep(ns, psr[i..], composerDir, dirSep);
        assert psr[i..][0] == psr[i] && psr[i..][1..] == psr[i + 1..];
        var namespacePrefix := TrimRight(psr[i].0, NamespaceSeparator);
        if !StartsWith(ns, namespacePrefix) {
          i := i + 1;
          continue;
        }
        var psrSubDir := TrimRight(psr[i].1, ComposerDirectorySeparator);
        var subDir := NormalizeSeparators(psrSubDir, ComposerDirectorySeparator, dirSep);
        var namespaceDir := NormalizeSeparators(Drop(ns, |namespacePrefix| + 1), NamespaceSeparator, dirSep);
        assert Resolve(ns, psr, composerDir, dirSep) == Ok(EntryDirectory(ns, psr[i], composerDir, dirSep));
        var root := RootDir();
        r := Ok(root + [dirSep] + subDir + [dirSep] + namespaceDir);
        assert r == Ok(EntryDirectory(ns, psr[i], composerDir, dirSep));
        return;
      }
      assert psr[i..] == [];
      return Err(NoPsr4Entry(ns));
    }

    /** `getNames()`: the directory lookup's error, the scan's failure, or the
        console name of every matched path, one per path and in scan order.
        Neither cache changes. */
    method GetNames(scan: string -> Option<seq<string>>) returns (r: Result<seq<string>>)
      requires Valid()
      modifies this`rootDir
      ensures Valid()
      ensures r == EnumeratedNames(ResolveManifest(manifest, commandsNameSpace, composerDir, dirSep), scan)
      ensures rootDir == if ResolveManifest(manifest, commandsNameSpace, composerDir, dirSep).Ok?
                         then Some(composerDir) else old(rootDir)
    {
      var dir := CommandsDirectory();
      if dir.Err? {
        return Err(dir.error);
      }
      var commandsDirectory := dir.value;
      var offset := |commandsDirectory| + 1;
      var matches := scan(commandsDirectory);
      if matches.None? {
        return Err(DirectoryUnreadable(commandsDirectory));
      }
      var names := NamesOfPaths(matches.value, offset);
      EnumeratedNamesOfScan(commandsDirectory, scan, names);
      return Ok(names);
    }
  }

  /** The loop of `getNames`: one console name per matched path, in order. */
  method NamesOfPaths(paths: seq<string>, offset: nat) returns (result: seq<string>)
    ensures |result| == |paths|
    ensures forall k :: 0 <= k < |paths| ==> result[k] == NameOfPath(paths[k], offset)
  {
    result := [];
    for i := 0 to |paths|
      invariant |result| == i
      invariant forall k :: 0 <= k < i ==> result[k] == NameOfPath(paths[k], offset)
    {
      var relative := Drop(paths[i], offset);
      var noPostfix := DropLast(relative, |FileSuffix|);
      result := result + [CommandNameOf(noPostfix)];
    }
  }

  /** A second `get` of a name the first one resolved returns the identical
      object and constructs nothing. */
  method GetTwice(loader: NamespaceCommandLoader, name: string) returns (first: Result<Command>, second: Result<Command>)
    requires loader.Valid()
    modifies loader
    ensures loader.Valid()
    ensures first.Ok? ==> second == first && name in loader.commands && loader.commands[name] == first.value
    ensures first.Ok? ==> loader.commands == old(loader.commands)[name := first.value]
  {
    first := loader.Get(name);
    ghost var afterFirst := loader.commands;
    second := loader.Get(name);
    assert first.Ok? ==> loader.commands == afterFirst;
  }

  /** Enumeration and lookup agree: when `getNames` reports `names` for the
      directory `d`, and its `k`-th path is the file `<d>/<relative>Command.php`
      of an existing class, then the class computed for `names[k]` exists, so
      `Has` answers true for that name and `Get` constructs it. */
  lemma EnumeratedNamesAreLoadable(ns: string, classes: set<string>, d: string,
                                   scan: string -> Option<seq<string>>, names: seq<string>,
                                   k: nat, relative: string)
    requires EnumeratedNames(Ok(d), scan) == Ok(names)
    requires k < |names| && scan(d).Some? && k < |scan(d).value|
    requires scan(d).value[k] == d + [ComposerDirectorySeparator] + relative + FileSuffix
    requires PascalPath(relative) && Psr4ClassName(ns, relative) in classes
    ensures ClassName(ns, names[k]) in classes
  {
    assert names[k] == NameOfPath(scan(d).value[k], |d| + 1);
    EnumeratedNameResolvesToFileClass(ns, d, relative);
  }
}
