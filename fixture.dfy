/** An assumed scenario modelled on the repository's test: commands namespace
    `App\Command` and the two command files `HelloCommand.php` and
    `App/GoodByeCommand.php`. The test does not show the manifest; the one
    assumed here holds the single PSR-4 entry `App\` for `src/`, with
    composer.json in `/proj`. Every concrete fact is
    established by one small computation; the rest goes through lemmas stated
    over variables. */
module Fixture {
  import opened Outcomes
  import opened Text
  import opened CaseConversion
  import opened NameTransform
  import opened Manifest
  import opened Loader

  const Namespace: string := "App\\Command"
  const Root: string := "/proj"
  const Entries: PsrMap := [("App\\", "src/")]
  const Directory: string := "/proj/src/Command"
  const HelloPath: string := "/proj/src/Command/HelloCommand.php"
  const GoodByePath: string := "/proj/src/Command/App/GoodByeCommand.php"

  // ---------------------------------------------------------------------------
  // Steps over variables

  lemma SplitTwo(a: string, sep: char, b: string)
    requires sep !in a && sep !in b
    ensures Split(a + [sep] + b, sep) == [a, b]
  {
    SplitAfterPiece(a, sep, b);
    SplitWithoutSeparator(b, sep);
  }

  lemma CamelOfOneWord(a: string, pa: string)
    requires '-' !in a && Capitalize(a) == pa
    ensures CamelTitle(a) == pa
  {
    SplitWithoutSeparator(a, '-');
    assert ConcatCapitalized([a]) == Capitalize(a) + ConcatCapitalized([]);
  }

  lemma CamelOfTwoWords(a: string, b: string, pab: string)
    requires '-' !in a && '-' !in b && Capitalize(a) + Capitalize(b) == pab
    ensures CamelTitle(a + ['-'] + b) == pab
  {
    SplitTwo(a, '-', b);
    var words := [a, b];
    assert words[1..] == [b];
    assert ConcatCapitalized([b]) == Capitalize(b) + ConcatCapitalized([]);
  }

  lemma KebabOfScan(x: string, kx: string)
    requires KebabFrom(x, true) == kx
    ensures Kebab(x) == kx
  {
    KebabIsKebabScan(x);
  }

  lemma NameOfOneSegment(a: string, ka: string)
    requires '/' !in a && Kebab(a) == ka
    ensures CommandNameOf(a) == ka
  {
    SplitWithoutSeparator(a, '/');
  }

  lemma NameOfTwoSegments(a: string, b: string, ka: string, kb: string)
    requires '/' !in a && '/' !in b && Kebab(a) == ka && Kebab(b) == kb
    ensures CommandNameOf(a + ['/'] + b) == ka + [':'] + kb
  {
    SplitTwo(a, '/', b);
    assert MapKebab([a, b]) == [ka, kb];
    assert [ka, kb][1..] == [kb];
    assert Join([ka, kb], ':') == ka + [':'] + kb;
  }

  lemma RelatedOfOneSegment(a: string, pa: string)
    requires ':' !in a && CamelTitle(a) == pa
    ensures CommandToClassRelated(a) == pa
  {
    SplitWithoutSeparator(a, ':');
  }

  lemma RelatedOfTwoSegments(a: string, b: string, pa: string, pb: string)
    requires ':' !in a && ':' !in b && CamelTitle(a) == pa && CamelTitle(b) == pb
    ensures CommandToClassRelated(a + [':'] + b) == pa + ['\\'] + pb
  {
    SplitTwo(a, ':', b);
    assert MapCamelTitle([a, b]) == [pa, pb];
    assert [pa, pb][1..] == [pb];
    assert Join([pa, pb], '\\') == pa + ['\\'] + pb;
  }

  lemma ClassOfRelated(ns: string, name: string, related: string)
    requires CommandToClassRelated(name) == related
    ensures ClassName(ns, name) == ns + ['\\'] + related + ClassSuffix
  {
  }

  lemma NameOfPathParts(dir: string, path: string, relative: string, name: string)
    requires path == dir + ['/'] + relative + FileSuffix
    requires CommandNameOf(relative) == name
    ensures NameOfPath(path, |dir| + 1) == name
  {
    NameOfPathStrips(dir, '/', relative);
  }

  // ---------------------------------------------------------------------------
  // Spelling of the scenario's strings

  lemma GoodByeWordText()
    ensures "good" + ['-'] + "bye" == "good-bye"
  {
  }

  lemma AppGoodByePathText()
    ensures "App" + ['/'] + "GoodBye" == "App/GoodBye"
  {
  }

  lemma AppGoodByeNameText()
    ensures "app" + [':'] + "good-bye" == "app:good-bye"
  {
  }

  lemma AppGoodByeRelatedText()
    ensures "App" + ['\\'] + "GoodBye" == "App\\GoodBye"
  {
  }

  lemma HelloPathText()
    ensures HelloPath == Directory + ['/'] + "Hello" + FileSuffix
  {
  }

  lemma GoodByePathText()
    ensures GoodByePath == Directory + ['/'] + "App/GoodBye" + FileSuffix
  {
  }

  lemma HelloClassText()
    ensures Namespace + ['\\'] + "Hello" + ClassSuffix == "App\\Command\\HelloCommand"
  {
  }

  lemma GoodByeClassText()
    ensures Namespace + ['\\'] + "App\\GoodBye" + ClassSuffix == "App\\Command\\App\\GoodByeCommand"
  {
  }

  // ---------------------------------------------------------------------------
  // Segments

  lemma HelloCamel()
    ensures CamelTitle("hello") == "Hello"
  {
    CamelOfOneWord("hello", "Hello");
  }

  lemma AppCamel()
    ensures CamelTitle("app") == "App"
  {
    CamelOfOneWord("app", "App");
  }

  lemma GoodByeCamel()
    ensures CamelTitle("good-bye") == "GoodBye"
  {
    GoodByeWordText();
    CamelOfTwoWords("good", "bye", "GoodBye");
  }

  lemma HelloKebab()
    ensures Kebab("Hello") == "hello"
  {
    KebabOfScan("Hello", "hello");
  }

  lemma AppKebab()
    ensures Kebab("App") == "app"
  {
    KebabOfScan("App", "app");
  }

  lemma GoodByeKebab()
    ensures Kebab("GoodBye") == "good-bye"
  {
    KebabOfScan("GoodBye", "good-bye");
  }

  // ---------------------------------------------------------------------------
  // The test's expectations

  /** The directory the loader scans. */
  lemma FixtureDirectory()
    ensures Resolve(Namespace, Entries, Root, '/') == Ok(Directory)
  {
    assert TrimRight("App\\", '\\') == TrimRight("App", '\\') == "App";
    assert Namespace[..3] == "App";
    assert Drop(Namespace, 4) == "Command";
    assert NormalizeSeparators("Command", '\\', '/') == "Command";
    assert TrimRight("src/", '/') == TrimRight("src", '/');
    assert NormalizeSeparators("src", '/', '/') == "src";
    assert Root + ['/'] + "src" + ['/'] + "Command" == Directory;
    ResolveStep(Namespace, Entries, Root, '/');
  }

  lemma HelloRelativeName()
    ensures CommandNameOf("Hello") == "hello"
  {
    HelloKebab();
    NameOfOneSegment("Hello", "hello");
  }

  /** `getNames()` reports `hello` for `HelloCommand.php`. */
  lemma HelloName()
    ensures NameOfPath(HelloPath, |Directory| + 1) == "hello"
  {
    HelloRelativeName();
    HelloPathText();
    NameOfPathParts(Directory, HelloPath, "Hello", "hello");
  }

  lemma GoodByeRelativeName()
    ensures CommandNameOf("App/GoodBye") == "app:good-bye"
  {
    AppKebab();
    GoodByeKebab();
    AppGoodByePathText();
    AppGoodByeNameText();
    NameOfTwoSegments("App", "GoodBye", "app", "good-bye");
  }

  /** `getNames()` reports `app:good-bye` for `App/GoodByeCommand.php`. */
  lemma GoodByeName()
    ensures NameOfPath(GoodByePath, |Directory| + 1) == "app:good-bye"
  {
    GoodByeRelativeName();
    GoodByePathText();
    NameOfPathParts(Directory, GoodByePath, "App/GoodBye", "app:good-bye");
  }

  lemma HelloRelatedClass()
    ensures CommandToClassRelated("hello") == "Hello"
  {
    HelloCamel();
    RelatedOfOneSegment("hello", "Hello");
  }

  /** `has('hello')` and `get('hello')` look for `App\Command\HelloCommand`. */
  lemma HelloClassName()
    ensures ClassName(Namespace, "hello") == "App\\Command\\HelloCommand"
  {
    HelloRelatedClass();
    ClassOfRelated(Namespace, "hello", "Hello");
    HelloClassText();
  }

  lemma GoodByeRelatedParts()
    ensures CommandToClassRelated("app" + [':'] + "good-bye") == "App" + ['\\'] + "GoodBye"
  {
    AppCamel();
    GoodByeCamel();
    RelatedOfTwoSegments("app", "good-bye", "App", "GoodBye");
  }

  lemma GoodByeRelatedClass()
    ensures CommandToClassRelated("app:good-bye") == "App\\GoodBye"
  {
    GoodByeRelatedParts();
    AppGoodByeNameText();
    AppGoodByeRelatedText();
  }

  lemma GoodByeClassParts()
    ensures ClassName(Namespace, "app:good-bye") == Namespace + ['\\'] + "App\\GoodBye" + ClassSuffix
  {
    GoodByeRelatedClass();
    ClassOfRelated(Namespace, "app:good-bye", "App\\GoodBye");
  }

  /** `has('app:good-bye')` and `get('app:good-bye')` look for
      `App\Command\App\GoodByeCommand`. */
  lemma GoodByeClassName()
    ensures ClassName(Namespace, "app:good-bye") == "App\\Command\\App\\GoodByeCommand"
  {
    GoodByeClassParts();
    GoodByeClassText();
  }

  lemma FixtureManifestDirectory()
    ensures ResolveManifest(Some(Entries), Namespace, Root, '/') == Ok(Directory)
  {
    FixtureDirectory();
  }

  lemma TwoPathNames(d: string, scan: string -> Option<seq<string>>, p: string, q: string, a: string, b: string)
    requires scan(d) == Some([p, q])
    requires NameOfPath(p, |d| + 1) == a && NameOfPath(q, |d| + 1) == b
    ensures EnumeratedNames(Ok(d), scan) == Ok([a, b])
  {
    EnumeratedNamesOfScan(d, scan, [a, b]);
  }

  /** `getNames()` on the scenario: `['hello', 'app:good-bye']`, in scan order. */
  lemma FixtureGetNames(scan: string -> Option<seq<string>>)
    requires scan(Directory) == Some([HelloPath, GoodByePath])
    ensures EnumeratedNames(ResolveManifest(Some(Entries), Namespace, Root, '/'), scan)
         == Ok(["hello", "app:good-bye"])
  {
    FixtureManifestDirectory();
    HelloName();
    GoodByeName();
    TwoPathNames(Directory, scan, HelloPath, GoodByePath, "hello", "app:good-bye");
  }
}
