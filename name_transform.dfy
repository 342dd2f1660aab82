/** The two directions of the loader's naming convention:
    - a console name such as `app:good-bye` becomes the class
      `<namespace>\App\GoodByeCommand` (`commandToClassRelated` and
      `commandClassName`);
    - a scanned file such as `<dir>/App/GoodByeCommand.php` becomes the
      console name `app:good-bye` (the loop body of `getNames`). */
module NameTransform {
  import opened Text
  import opened CaseConversion

  const NamespaceSeparator: char := '\\'
  const CommandSeparator: char := ':'
  const ComposerDirectorySeparator: char := '/'
  /** Appended to the class-related name to form the class name. */
  const ClassSuffix: string := "Command"
  /** What the scan's pattern `/.*Command\.php$/` guarantees at the end of every path. */
  const FileSuffix: string := "Command.php"

  function MapCamelTitle(words: seq<string>): (r: seq<string>)
    ensures |r| == |words| && forall i :: 0 <= i < |words| ==> r[i] == CamelTitle(words[i])
  {
    seq(|words|, i requires 0 <= i < |words| => CamelTitle(words[i]))
  }

  function MapKebab(words: seq<string>): (r: seq<string>)
    ensures |r| == |words| && forall i :: 0 <= i < |words| ==> r[i] == Kebab(words[i])
  {
    seq(|words|, i requires 0 <= i < |words| => Kebab(words[i]))
  }

  /** `commandToClassRelated(name)`: every ':'-segment Pascal-cased, joined by '\'. */
  function CommandToClassRelated(name: string): string
  {
    Join(MapCamelTitle(Split(name, CommandSeparator)), NamespaceSeparator)
  }

  /** The string `commandClassName(name)` computes for a loader whose
      (trimmed) commands namespace is `ns`. */
  function ClassName(ns: string, name: string): string
  {
    ns + [NamespaceSeparator] + CommandToClassRelated(name) + ClassSuffix
  }

  /** The console name of a class-related path such as `App/GoodBye`: every
      '/'-segment kebab-cased, joined by ':'. */
  function CommandNameOf(relative: string): string
  {
    Join(MapKebab(Split(relative, ComposerDirectorySeparator)), CommandSeparator)
  }

  /** The body of the loop in `getNames` for one matched path: drop the first
      `offset` characters (the directory and its separator), then the last 11
      (`Command.php`), then convert. */
  function NameOfPath(path: string, offset: nat): string
  {
    CommandNameOf(DropLast(Drop(path, offset), |FileSuffix|))
  }

  /** The class that PSR-4 (section 3 of PSR-4) assigns to the file
      `<dir>/<relative>Command.php` when `<dir>` is the directory of the
      namespace `ns`. */
  function Psr4ClassName(ns: string, relative: string): string
  {
    ns + [NamespaceSeparator] + ReplaceChar(relative, ComposerDirectorySeparator, NamespaceSeparator) + ClassSuffix
  }

  /** Every segment of a relative path is PascalCase. */
  predicate PascalPath(relative: string)
  {
    var segments := Split(relative, ComposerDirectorySeparator);
    forall i :: 0 <= i < |segments| ==> PascalSegment(segments[i])
  }

  /** Every segment of a console name is kebab-case. */
  predicate KebabName(name: string)
  {
    var segments := Split(name, CommandSeparator);
    forall i :: 0 <= i < |segments| ==> KebabSegment(segments[i])
  }

  // ---------------------------------------------------------------------------
  // Console name to class

  /** The class-related name has exactly one '\'-segment per ':'-segment of
      the console name, and each is the PascalCase form of its counterpart. */
  lemma ClassRelatedSegments(name: string)
    requires NamespaceSeparator !in name
    ensures Split(CommandToClassRelated(name), NamespaceSeparator) == MapCamelTitle(Split(name, CommandSeparator))
    ensures |Split(CommandToClassRelated(name), NamespaceSeparator)| == |Split(name, CommandSeparator)|
  {
    var segments := Split(name, CommandSeparator);
    SplitPieces(name, CommandSeparator);
    var pascal := MapCamelTitle(segments);
    forall i | 0 <= i < |pascal| ensures NamespaceSeparator !in pascal[i] {
      assert NamespaceSeparator !in segments[i] by {
        if NamespaceSeparator in segments[i] {
          JoinContains(segments, CommandSeparator, i);
          assert false;
        }
      }
      CamelTitleKeepsOut(segments[i], NamespaceSeparator);
    }
    SplitJoin(pascal, NamespaceSeparator);
  }

  /** Every character of a piece reappears in the joined string. */
  lemma {:induction false} JoinContains(parts: seq<string>, sep: char, k: nat)
    requires k < |parts|
    ensures forall c :: c in parts[k] ==> c in Join(parts, sep)
    decreases |parts|
  {
    if |parts| > 1 && k > 0 {
      JoinContains(parts[1..], sep, k - 1);
    }
  }

  // ---------------------------------------------------------------------------
  // Scanned path to console name, and back

  /** `getNames` strips exactly the directory, one separator and the file
      suffix, whatever separator character the scan put in between. */
  lemma NameOfPathStrips(dir: string, sep: char, relative: string)
    ensures NameOfPath(dir + [sep] + relative + FileSuffix, |dir| + 1) == CommandNameOf(relative)
  {
    var path := dir + [sep] + relative + FileSuffix;
    assert Drop(path, |dir| + 1) == relative + FileSuffix;
    assert DropLast(relative + FileSuffix, |FileSuffix|) == relative;
  }

  /** A console name obtained from a PascalCase path maps back to that path,
      with '\' in place of '/'. */
  lemma ClassOfEnumeratedName(relative: string)
    requires PascalPath(relative)
    ensures CommandToClassRelated(CommandNameOf(relative)) == ReplaceChar(relative, ComposerDirectorySeparator, NamespaceSeparator)
  {
    var segments := Split(relative, ComposerDirectorySeparator);
    SplitPieces(relative, ComposerDirectorySeparator);
    var kebab := MapKebab(segments);
    forall i | 0 <= i < |kebab| ensures CommandSeparator !in kebab[i] {
      KebabKeepsOut(segments[i], CommandSeparator);
    }
    SplitJoin(kebab, CommandSeparator);
    var back := MapCamelTitle(kebab);
    forall i | 0 <= i < |segments| ensures back[i] == segments[i] {
      PascalAfterKebab(segments[i]);
    }
    assert back == segments;
    ReplaceJoin(segments, ComposerDirectorySeparator, NamespaceSeparator);
  }

  /** A kebab-case console name survives the trip to its class-related path
      and back through `getNames`' conversion. */
  lemma NameOfClassRelated(name: string)
    requires KebabName(name)
    ensures CommandNameOf(ReplaceChar(CommandToClassRelated(name), NamespaceSeparator, ComposerDirectorySeparator)) == name
  {
    var segments := Split(name, CommandSeparator);
    SplitPieces(name, CommandSeparator);
    var pascal := MapCamelTitle(segments);
    forall i | 0 <= i < |pascal|
      ensures NamespaceSeparator !in pascal[i] && ComposerDirectorySeparator !in pascal[i]
    {
      CamelTitleKeepsOut(segments[i], NamespaceSeparator);
      CamelTitleKeepsOut(segments[i], ComposerDirectorySeparator);
    }
    ReplaceJoin(pascal, NamespaceSeparator, ComposerDirectorySeparator);
    SplitJoin(pascal, ComposerDirectorySeparator);
    var back := MapKebab(pascal);
    forall i | 0 <= i < |segments| ensures back[i] == segments[i] {
      KebabAfterPascal(segments[i]);
    }
    assert back == segments;
  }

  /** The name `getNames` reports for the file `<dir>/<relative>Command.php`
      resolves, through `commandClassName`, to the very class PSR-4 loads from
      that file: enumeration and lookup agree. */
  lemma EnumeratedNameResolvesToFileClass(ns: string, dir: string, relative: string)
    requires PascalPath(relative)
    ensures ClassName(ns, NameOfPath(dir + [ComposerDirectorySeparator] + relative + FileSuffix, |dir| + 1))
         == Psr4ClassName(ns, relative)
  {
    NameOfPathStrips(dir, ComposerDirectorySeparator, relative);
    ClassOfEnumeratedName(relative);
  }

  /** Converting a path to a name, the name to a class and the class back to a
      name gives the same name again. */
  lemma NameConversionIsStable(relative: string)
    requires PascalPath(relative)
    ensures CommandNameOf(ReplaceChar(CommandToClassRelated(CommandNameOf(relative)), NamespaceSeparator, ComposerDirectorySeparator))
         == CommandNameOf(relative)
  {
    ClassOfEnumeratedName(relative);
    var segments := Split(relative, ComposerDirectorySeparator);
    SplitPieces(relative, ComposerDirectorySeparator);
    forall i | 0 <= i < |segments| ensures NamespaceSeparator !in segments[i] { }
    var there := ReplaceChar(relative, ComposerDirectorySeparator, NamespaceSeparator);
    assert ReplaceChar(there, NamespaceSeparator, ComposerDirectorySeparator) == relative by {
      ReplaceJoin(segments, ComposerDirectorySeparator, NamespaceSeparator);
      forall i | 0 <= i < |segments| ensures ComposerDirectorySeparator !in segments[i] { }
      ReplaceJoin(segments, NamespaceSeparator, ComposerDirectorySeparator);
    }
  }
}
