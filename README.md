# NamespaceCommandLoader, modelled in Dafny

`kadanin/symfony-psr4-command-loader` provides one class,
`NamespaceCommandLoader`. It is a lazy Symfony Console command loader. It
derives console command names from the class files found under the
directory that composer.json's `autoload.psr-4` section assigns to a
commands namespace (by default `App\Command`). It also turns a console name
back into a class name on demand: `app:good-bye` becomes
`App\Command\App\GoodByeCommand`.

The model is laid out in these modules:

- `Outcomes` (`outcomes.dfy`): `Option`, `Result` and the loader's error
  kinds. These are a failing `psrMap`, no matching PSR-4 entry, an
  unreadable directory, and a class that does not exist.
- `Text` (`text.dfy`): the PHP string functions the loader calls.
  - `explode`, `u()->split()` and `implode` are `Split` and `Join`.
  - `str_replace` of one character is `ReplaceChar`.
  - `trim` and `rtrim` of one character are `Trim` and `TrimRight`.
  - `mb_strpos(...) === 0` is `StartsWith`.
  - The two `mb_substr` forms are `Drop` and `DropLast`.
- `CaseConversion` (`case_conversion.dfy`): the two Symfony String chains,
  over ASCII.
  - `camel()->title()` is `CamelTitle`.
  - `snake()->lower()->replace('_', '-')` is `Kebab`.
  - Each chain also has a character-by-character reading, and the two are
    proved to be mutual inverses on well-formed segments.
- `NameTransform` (`name_transform.dfy`): the naming convention in both
  directions.
  - `commandToClassRelated` and the string `commandClassName` builds.
  - The loop body of `getNames`.
  - Lemmas showing that enumeration and lookup agree.
- `Manifest` (`manifest.dfy`): `normalizeSeparators` and the search of
  `commandsDirectory`.
  - `Resolve` is the search exactly as the loader performs it.
  - `ResolvePsr4` is the search as PSR-4 (section 3 of PSR-4) intends it.
  - Lemmas relate the two and pin down where they differ (see Findings).
- `Loader` (`loader.dfy`): the class `NamespaceCommandLoader` itself.
  - It keeps the class-name cache, the command cache and the root-directory
    cache as fields that its methods update.
  - Its `get`, `has`, `getNames`, `commandClassName`, `commandsDirectory` and
    `rootDir` are methods with their frames.
  - Each method is proved against the functions above.
  - A `Command` class gives commands object identity, so "the same object is
    returned again" can be stated.
- `Fixture` (`fixture.dfy`): an assumed scenario modelled on the repository's test.
  - The namespace is `App\Command`. The test names only the command files,
    so the manifest is an assumption: the single PSR-4 entry `App\` for `src/`,
    with composer.json in `/proj`.
  - The command files are `HelloCommand.php` and `App/GoodByeCommand.php`.
  - It shows the expected class names and `['hello', 'app:good-bye']`.

The loader's contact with the outside world is given to it as inputs:

- the directory of composer.json;
- the parsed `autoload.psr-4` entries (`None` when `psrMap` throws);
- the set of existing classes (`class_exists`);
- PHP's `DIRECTORY_SEPARATOR` (`dirSep`);
- the recursive directory scan. This is a function from a directory to the
  matched paths in iteration order, or `None` when the iterator throws.

## Model

| member | source | states |
|---|---|---|
| CaseConversion.CamelTitle | src/NamespaceCommandLoader.php:91 | `camel()->title()` of one ':'-segment: split on '-', capitalise the first character of each word, concatenate |
| CaseConversion.Kebab | src/NamespaceCommandLoader.php:74 | `snake()->lower()->replace('_','-')` of one path segment: a '_' before every upper-case letter but the first, lower-case everything, then '_' becomes '-' |
| NameTransform.CommandToClassRelated | src/NamespaceCommandLoader.php:86-94 | `commandToClassRelated`: split the console name on ':', convert each segment with `CamelTitle`, join with '\' |
| NameTransform.ClassName | src/NamespaceCommandLoader.php:83 | the string `commandClassName` builds: namespace, '\', class-related name, `Command` |
| NameTransform.CommandNameOf | src/NamespaceCommandLoader.php:71-75 | the loop body's conversion: split the relative path on '/', convert each segment with `Kebab`, join with ':' |
| NameTransform.NameOfPath | src/NamespaceCommandLoader.php:69-76 | one loop iteration of `getNames`: drop the directory and its separator, drop the last 11 characters, convert with `CommandNameOf` |
| Manifest.NormalizeSeparators | src/NamespaceCommandLoader.php:159-164 | the path unchanged when the separator already is `DIRECTORY_SEPARATOR`, else every occurrence replaced by it |
| Manifest.EntryDirectory | src/NamespaceCommandLoader.php:109-113 | the directory built for a matching entry: root, separator, rtrimmed and normalised sub-directory, separator, the normalised namespace after `strlen(prefix) + 1` characters |
| Manifest.Resolve | src/NamespaceCommandLoader.php:104-115 | the loop over the entries in declaration order: the first entry whose rtrimmed prefix is a string prefix of the namespace gives `EntryDirectory`; none gives the no-entry error |
| Manifest.ResolveManifest | src/NamespaceCommandLoader.php:102-115 | `psrMap()` failing gives `ManifestInvalid`; otherwise the result of `Resolve` |
| Loader.EnumeratedNames | src/NamespaceCommandLoader.php:57-78 | what `getNames` returns for a directory lookup and a scan: the lookup's error, the scan's failure, or one `NameOfPath` per matched path in scan order |
| Text.SplitPieces | src/NamespaceCommandLoader.php:75 | no piece of `explode` holds the separator, and `implode` of the pieces gives back the input |
| Text.SplitJoin | src/NamespaceCommandLoader.php:88-92 | splitting a join of separator-free pieces gives back exactly those pieces |
| Text.ReplaceJoin | src/NamespaceCommandLoader.php:163 | replacing the separator of a joined string is joining with the new separator |
| Text.ReplaceCharSplit | src/NamespaceCommandLoader.php:163 | after replacing `a` by an absent `b`, splitting on `b` gives the same segments as splitting on `a` |
| Text.TrimRight | src/NamespaceCommandLoader.php:105 | `rtrim` returns a prefix of the input that does not end in the character, and everything removed was that character |
| Text.Trim | src/NamespaceCommandLoader.php:30 | `trim` returns a contiguous part of the input with no leading or trailing occurrence of the character |
| CaseConversion.CamelTitleIsPascalScan | src/NamespaceCommandLoader.php:90-92 | `camel()->title()` drops every '-' and upper-cases the first character and every character after a '-' |
| CaseConversion.KebabIsKebabScan | src/NamespaceCommandLoader.php:73-75 | `snake()->lower()->replace('_','-')` lower-cases everything and puts '-' before every interior capital |
| CaseConversion.PascalAfterKebab | src/NamespaceCommandLoader.php:74 | Pascal-casing the kebab form of a PascalCase segment gives the segment back |
| CaseConversion.KebabAfterPascal | src/NamespaceCommandLoader.php:91 | kebab-casing the Pascal form of a kebab-case segment gives the segment back |
| CaseConversion.CamelTitleKeepsOut | src/NamespaceCommandLoader.php:91 | a separator that is neither a letter nor '-' cannot appear in the Pascal form unless it is in the input |
| CaseConversion.KebabKeepsOut | src/NamespaceCommandLoader.php:74 | the same for the kebab form |
| NameTransform.ClassRelatedSegments | src/NamespaceCommandLoader.php:86-94 | the class-related name has one '\'-segment per ':'-segment of the console name, and each is its Pascal form |
| NameTransform.JoinContains | src/NamespaceCommandLoader.php:88 | every character of a piece occurs in the joined string |
| NameTransform.NameOfPathStrips | src/NamespaceCommandLoader.php:59-70 | the two `mb_substr` calls remove exactly the directory, one separator and `Command.php` |
| NameTransform.ClassOfEnumeratedName | src/NamespaceCommandLoader.php:68-94 | converting a PascalCase path to a console name and back gives the path with '\' for '/' |
| NameTransform.NameOfClassRelated | src/NamespaceCommandLoader.php:68-94 | a kebab-case console name survives the trip to its class path and back through `getNames`' conversion |
| NameTransform.EnumeratedNameResolvesToFileClass | src/NamespaceCommandLoader.php:57-94 | the name reported for `<dir>/<Rel>Command.php` makes `commandClassName` produce the class PSR-4 loads from that file |
| NameTransform.NameConversionIsStable | src/NamespaceCommandLoader.php:68-94 | path to name to class to name gives the same name again |
| Manifest.NormalizeIsReplacement | src/NamespaceCommandLoader.php:159-164 | the shortcut for equal separators changes nothing: the result is always the replacement |
| Manifest.NormalizeReplacesOnlySeparator | src/NamespaceCommandLoader.php:159-164 | the length is kept, every other character is kept, each separator becomes `DIRECTORY_SEPARATOR`, and no old separator is left |
| Manifest.NormalizeKeepsSegments | src/NamespaceCommandLoader.php:111 | each sub-namespace becomes exactly one sub-directory |
| Manifest.ResolveSpec | src/NamespaceCommandLoader.php:104-115 | the search fails with the no-entry error exactly when no rtrimmed prefix is a string prefix of the namespace; otherwise it yields the directory of the first such entry, built as on lines 109-113 |
| Manifest.ResolveFirstMatch | src/NamespaceCommandLoader.php:104-114 | conversely, whichever entry is the first to match decides the directory |
| Manifest.ResolveIgnoresLaterEntries | src/NamespaceCommandLoader.php:104-114 | entries after a matching one never change the result |
| Manifest.ResolvePsr4 | src/NamespaceCommandLoader.php:104-115 | corrected search: first entry matching at a segment boundary, whose remainder reassembles the namespace |
| Manifest.Psr4RemainderSplits | src/NamespaceCommandLoader.php:111 | corrected remainder: prefix, separator and remainder give back the namespace |
| Manifest.EntryDirectoryAgreesAtBoundary | src/NamespaceCommandLoader.php:105-113 | for a non-empty prefix at a segment boundary, the loader's test accepts it and its directory is the PSR-4 one |
| Manifest.ResolveAgreesWithPsr4 | src/NamespaceCommandLoader.php:104-115 | with non-empty prefixes that match only at segment boundaries, the loader's search equals the PSR-4 search |
| Manifest.PrefixMatchesInsideSegment | src/NamespaceCommandLoader.php:105-106 | `App\` is accepted for `Application\Command` and gives `/proj/src/ication/Command`; the PSR-4 search reports no entry |
| Manifest.EmptyPrefixDropsFirstCharacter | src/NamespaceCommandLoader.php:111 | the empty prefix gives `/proj/src/pp/Command` for `App\Command`; the PSR-4 search gives `/proj/src/App/Command` |
| Loader.NamespaceCommandLoader.constructor | src/NamespaceCommandLoader.php:27-31 | the namespace is stored trimmed of '\' (default `App\Command`), and all caches start empty |
| Loader.NamespaceCommandLoader.Get | src/NamespaceCommandLoader.php:36-39 | a cached command is returned unchanged with no state change. Otherwise the class name is cached; if the class exists, a fresh command of that class is cached under exactly `name`, else `ClassNotFound` |
| Loader.NamespaceCommandLoader.Has | src/NamespaceCommandLoader.php:44-51 | true for a cached name or an existing computed class, which is the same as whether the computed class exists; only the class-name cache may gain `name` |
| Loader.NamespaceCommandLoader.CommandClassName | src/NamespaceCommandLoader.php:81-84 | returns `<namespace>\<Pascal segments>Command`; the cache gains that entry and keeps every other |
| Loader.NamespaceCommandLoader.RootDir | src/NamespaceCommandLoader.php:166-169 | returns the composer.json directory and caches it |
| Loader.NamespaceCommandLoader.CommandsDirectory | src/NamespaceCommandLoader.php:100-116 | the loop returns `ResolveManifest`: the manifest error, the first matching entry's directory, or the no-entry error; the root directory is cached only on success |
| Loader.NamesOfPaths | src/NamespaceCommandLoader.php:67-77 | the loop yields exactly one name per matched path, the i-th being the conversion of the i-th path |
| Loader.NamespaceCommandLoader.GetNames | src/NamespaceCommandLoader.php:57-79 | the lookup error, the scan failure, or one name per matched path in scan order; neither name cache changes, and the root directory is cached exactly when the lookup succeeds, otherwise it keeps its old value |
| Loader.GetTwice | src/NamespaceCommandLoader.php:38 | after a successful `get`, a second `get` returns the identical object and constructs nothing |
| Loader.EnumeratedNamesAreLoadable | src/NamespaceCommandLoader.php:44-79 | when `EnumeratedNames` reports `names` and the k-th path is the file of an existing PSR-4 class, the class computed for `names[k]` exists; by the contracts of `Has` and `Get`, `has` then answers true and `get` constructs it |
| Fixture.FixtureDirectory | tests/cases/MainTest.php:15-19 | with the assumed entry `App\` for `src/` and root `/proj`, the commands directory of `App\Command` is `/proj/src/Command` |
| Fixture.HelloClassName | tests/cases/MainTest.php:36-38 | `hello` resolves to `App\Command\HelloCommand` |
| Fixture.GoodByeClassName | tests/cases/MainTest.php:37-39 | `app:good-bye` resolves to `App\Command\App\GoodByeCommand` |
| Fixture.HelloName | tests/cases/MainTest.php:40 | `HelloCommand.php` is reported as `hello` |
| Fixture.GoodByeName | tests/cases/MainTest.php:40 | `App/GoodByeCommand.php` is reported as `app:good-bye` |
| Fixture.FixtureGetNames | tests/cases/MainTest.php:40 | `getNames` on the scenario gives `['hello', 'app:good-bye']` |

## Left out

- Reading composer.json (`psrMap`, `fileGetContents`, lines 122-157): file I/O and JSON decoding are not modelled. The parsed `autoload.psr-4` entries, in declaration order, are an input, and every way these functions throw is the single `ManifestInvalid` error.
- `realpath` and `dirname` (lines 29 and 168): filesystem queries. Their result, the directory of composer.json, is an input.
- `RecursiveDirectoryIterator` with the `Command.php` filter (lines 62-66): directory traversal is an input function. Its order and its choice of matching paths are taken as given.
- `class_exists`, autoloading and `new $class()`: the existing classes are a set given to the loader, and construction yields a fresh `Command` carrying its class name.
- CaseConversion.CamelTitle: the model covers ASCII only and breaks words only at '-'. Symfony's `camel()` treats every run of characters that are neither letters nor digits as a word break and removes it, and it handles Unicode. The model keeps every such character other than '-' in place.
- NameTransform.ClassRelatedSegments: requires that the console name holds no '\'. Because `CamelTitle` keeps '\', the model gives `CommandToClassRelated("a\\b") == "A\\b"`, two '\'-segments for one ':'-segment. Symfony's `camel()` removes the '\' and gives `AB`, so in the source the segment count holds for every name.
- CaseConversion.Kebab: the model covers ASCII only. Symfony's `snake()` also treats runs of capitals (acronyms), digits and Unicode specially. Only a '_' before each interior capital is modelled.
- Loader.NamespaceCommandLoader.GetNames: paths are split on '/' exactly as line 75 does. On a platform whose separator is not '/', the result is whatever that split gives. Nothing is claimed for nested directories there.
- Loader.NamespaceCommandLoader.Has: follows the code. `has` never reads composer.json and never throws, so a missing manifest is not reported there.
- Each call to `commandsDirectory` re-reads composer.json in the source. The model takes the manifest as fixed for the loader's lifetime, so a file changing between calls is not modelled.
- Exceptions carry messages and chained causes in PHP. The model keeps only the error kind and the namespace, directory or class it names.
- The fixture command classes' `configure` and `execute` bodies are outside the loader, and so is running a command.

## Findings

| source | as written | input that shows it | evidently intended | confidence | as-written member | corrected member |
|---|---|---|---|---|---|---|
| src/NamespaceCommandLoader.php:105-106 | the prefix is rtrimmed of '\' and then compared as a plain string prefix, so the segment boundary is lost | namespace `Application\Command`, entry `App\` for `src/`: accepted, directory `/proj/src/ication/Command` | a prefix matches only the namespace itself or its leading segments (section 3 of PSR-4), so no entry is found | not executed | Manifest.PrefixMatchesInsideSegment | Manifest.ResolvePsr4 |
| src/NamespaceCommandLoader.php:111 | the remainder always skips `strlen(prefix) + 1` characters, even for the empty prefix | namespace `App\Command`, entry `""` for `src/`: directory `/proj/src/pp/Command` | the empty prefix is the fallback for every namespace and keeps the whole namespace: `/proj/src/App/Command` | not executed | Manifest.EmptyPrefixDropsFirstCharacter | Manifest.Psr4RemainderSplits |

The class `Loader.NamespaceCommandLoader` performs the search as written.
`Manifest.ResolveAgreesWithPsr4` proves that this search equals the
corrected one on every manifest that avoids both inputs above: no empty
prefix, and every accepted prefix ends at a segment boundary.
