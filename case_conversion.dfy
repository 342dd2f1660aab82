/** The two Symfony String conversions the loader applies to one name segment,
    over the ASCII alphabet:
    - `u(seg)->camel()->title()` turns a kebab-case word list into PascalCase;
    - `u(seg)->snake()->lower()->replace('_', '-')` turns PascalCase into
      kebab-case.
    Both are defined the way the loader's callers see them, and each is also
    given a character-by-character reading used in the proofs. */
module CaseConversion {
  import opened Text

  predicate IsUpper(c: char) { 'A' <= c <= 'Z' }
  predicate IsLower(c: char) { 'a' <= c <= 'z' }

  function Upper(c: char): char
  {
    if IsLower(c) then (c as int - 'a' as int + 'A' as int) as char else c
  }

  function Lower(c: char): char
  {
    if IsUpper(c) then (c as int - 'A' as int + 'a' as int) as char else c
  }

  /** `mb_strtolower` on ASCII. */
  function Lowercase(s: string): string
  {
    seq(|s|, i requires 0 <= i < |s| => Lower(s[i]))
  }

  /** Upper-cases the first character of a word, keeps the rest. */
  function Capitalize(w: string): string
  {
    if w == [] then [] else [Upper(w[0])] + w[1..]
  }

  function ConcatCapitalized(words: seq<string>): string
  {
    if words == [] then [] else Capitalize(words[0]) + ConcatCapitalized(words[1..])
  }

  /** `camel()->title()`: split on '-', capitalise each word, concatenate. */
  function CamelTitle(s: string): string
  {
    ConcatCapitalized(Split(s, '-'))
  }

  /** `snake()`: a '_' in front of every upper-case letter but the first character. */
  function Snake(s: string): string
  {
    SnakeFrom(s, true)
  }

  function SnakeFrom(s: string, atStart: bool): string
    decreases |s|
  {
    if s == [] then []
    else (if !atStart && IsUpper(s[0]) then ['_', s[0]] else [s[0]]) + SnakeFrom(s[1..], false)
  }

  /** `snake()->lower()->replace('_', '-')`. */
  function Kebab(s: string): string
  {
    ReplaceChar(Lowercase(Snake(s)), '_', '-')
  }

  // ---------------------------------------------------------------------------
  // Character-by-character readings

  /** Pascal-casing as a scan: a '-' is dropped and asks for the next character
      to be upper-cased. */
  function PascalFrom(s: string, capNext: bool): string
    decreases |s|
  {
    if s == [] then []
    else if s[0] == '-' then PascalFrom(s[1..], true)
    else [if capNext then Upper(s[0]) else s[0]] + PascalFrom(s[1..], false)
  }

  function KebabChar(c: char): char
  {
    if c == '_' then '-' else Lower(c)
  }

  /** Kebab-casing as a scan: an interior upper-case letter becomes '-' and its
      lower-case form; '_' becomes '-'; everything is lower-cased. */
  function KebabFrom(s: string, atStart: bool): string
    decreases |s|
  {
    if s == [] then []
    else (if !atStart && IsUpper(s[0]) then ['-', Lower(s[0])] else [KebabChar(s[0])]) + KebabFrom(s[1..], false)
  }

  lemma {:induction false} PascalFromWords(s: string, capNext: bool)
    ensures var words := Split(s, '-');
            PascalFrom(s, capNext) ==
              (if capNext then Capitalize(words[0]) else words[0]) + ConcatCapitalized(words[1..])
    decreases |s|
  {
    if s != [] {
      PascalFromWords(s[1..], s[0] == '-' || capNext == false);
      PascalFromWords(s[1..], true);
      PascalFromWords(s[1..], false);
      var rest := Split(s[1..], '-');
      if s[0] == '-' {
        assert Split(s, '-') == [[]] + rest;
        assert ([[]] + rest)[1..] == rest;
      } else {
        var words := [[s[0]] + rest[0]] + rest[1..];
        assert Split(s, '-') == words;
        assert words[1..] == rest[1..];
        assert ([s[0]] + rest[0])[1..] == rest[0];
      }
    }
  }

  /** The scan computes exactly `camel()->title()`. */
  lemma CamelTitleIsPascalScan(s: string)
    ensures CamelTitle(s) == PascalFrom(s, true)
  {
    PascalFromWords(s, true);
    var words := Split(s, '-');
    assert words == [words[0]] + words[1..];
  }

  lemma LowercaseAppend(s: string, t: string)
    ensures Lowercase(s + t) == Lowercase(s) + Lowercase(t)
  {
  }

  lemma {:induction false} KebabFromPipeline(s: string, atStart: bool)
    ensures ReplaceChar(Lowercase(SnakeFrom(s, atStart)), '_', '-') == KebabFrom(s, atStart)
    decreases |s|
  {
    if s != [] {
      KebabFromPipeline(s[1..], false);
      var head := if !atStart && IsUpper(s[0]) then ['_', s[0]] else [s[0]];
      LowercaseAppend(head, SnakeFrom(s[1..], false));
      ReplaceCharAppend(Lowercase(head), Lowercase(SnakeFrom(s[1..], false)), '_', '-');
    }
  }

  /** The scan computes exactly `snake()->lower()->replace('_', '-')`. */
  lemma KebabIsKebabScan(s: string)
    ensures Kebab(s) == KebabFrom(s, true)
  {
    KebabFromPipeline(s, true);
  }

  // ---------------------------------------------------------------------------
  // Which segments survive a round trip

  /** A PascalCase path segment: starts upper-case, holds neither '-' nor '_'
      nor a separator of commands, namespaces or paths. */
  predicate PascalSegment(x: string)
  {
    |x| > 0 && IsUpper(x[0]) &&
    forall i :: 0 <= i < |x| ==> x[i] != '-' && x[i] != '_' && x[i] != ':' && x[i] != '\\' && x[i] != '/'
  }

  /** A kebab-case command segment: lower-case words joined by single '-',
      every word starting with a lower-case letter, and no separator. */
  predicate KebabSegment(w: string)
  {
    |w| > 0 && IsLower(w[0]) &&
    forall i :: 0 <= i < |w| ==>
      !IsUpper(w[i]) && w[i] != '_' && w[i] != ':' && w[i] != '\\' && w[i] != '/' &&
      (w[i] == '-' ==> i + 1 < |w| && IsLower(w[i + 1]))
  }

  lemma {:induction false} PascalAfterKebabTail(x: string)
    requires forall i :: 0 <= i < |x| ==> x[i] != '-' && x[i] != '_'
    ensures PascalFrom(KebabFrom(x, false), false) == x
    decreases |x|
  {
    if x != [] {
      PascalAfterKebabTail(x[1..]);
      var k := KebabFrom(x[1..], false);
      if IsUpper(x[0]) {
        assert KebabFrom(x, false) == ['-', Lower(x[0])] + k;
        assert (['-', Lower(x[0])] + k)[1..] == [Lower(x[0])] + k;
        assert ([Lower(x[0])] + k)[1..] == k;
      } else {
        assert KebabFrom(x, false) == [x[0]] + k;
        assert ([x[0]] + k)[1..] == k;
      }
    }
  }

  /** `camel()->title()` undoes `snake()->lower()->replace('_', '-')` on a
      PascalCase segment. */
  lemma PascalAfterKebab(x: string)
    requires PascalSegment(x)
    ensures CamelTitle(Kebab(x)) == x
  {
    KebabIsKebabScan(x);
    var k := KebabFrom(x[1..], false);
    var whole := [Lower(x[0])] + k;
    assert KebabFrom(x, true) == whole;
    CamelTitleIsPascalScan(whole);
    assert whole[0] == Lower(x[0]) != '-' && whole[1..] == k;
    assert PascalFrom(whole, true) == [Upper(Lower(x[0]))] + PascalFrom(k, false);
    PascalAfterKebabTail(x[1..]);
    assert x == [x[0]] + x[1..];
  }

  predicate KebabTail(w: string)
  {
    forall i :: 0 <= i < |w| ==>
      !IsUpper(w[i]) && w[i] != '_' && (w[i] == '-' ==> i + 1 < |w| && IsLower(w[i + 1]))
  }

  lemma KebabTailSuffix(w: string, k: nat)
    requires KebabTail(w) && k <= |w|
    ensures KebabTail(w[k..])
  {
    var r := w[k..];
    forall i | 0 <= i < |r|
      ensures !IsUpper(r[i]) && r[i] != '_' && (r[i] == '-' ==> i + 1 < |r| && IsLower(r[i + 1]))
    {
      var j := k + i;
      assert 0 <= j < |w| && r[i] == w[j];
      assert !IsUpper(w[j]) && w[j] != '_' && (w[j] == '-' ==> j + 1 < |w| && IsLower(w[j + 1]));
      if r[i] == '-' {
        assert w[j + 1] == r[i + 1];
      }
    }
    assert KebabTail(r);
  }

  lemma {:induction false} KebabAfterPascalTail(w: string)
    requires KebabTail(w)
    ensures KebabFrom(PascalFrom(w, false), false) == w
    decreases |w|
  {
    if w != [] {
      if w[0] == '-' {
        assert 1 < |w| && IsLower(w[1]);
        var r := w[2..];
        KebabTailSuffix(w, 2);
        KebabAfterPascalTail(r);
        var p := PascalFrom(r, false);
        assert w[1..][1..] == r;
        assert PascalFrom(w, false) == [Upper(w[1])] + p;
        assert ([Upper(w[1])] + p)[1..] == p;
        assert w == ['-', w[1]] + r;
      } else {
        var r := w[1..];
        KebabTailSuffix(w, 1);
        KebabAfterPascalTail(r);
        var p := PascalFrom(r, false);
        assert PascalFrom(w, false) == [w[0]] + p;
        assert ([w[0]] + p)[1..] == p;
        assert w == [w[0]] + r;
      }
    }
  }

  /** `snake()->lower()->replace('_', '-')` undoes `camel()->title()` on a
      kebab-case segment. */
  lemma KebabAfterPascal(w: string)
    requires KebabSegment(w)
    ensures Kebab(CamelTitle(w)) == w
  {
    CamelTitleIsPascalScan(w);
    KebabIsKebabScan(CamelTitle(w));
    var r := w[1..];
    assert KebabTail(w);
    KebabTailSuffix(w, 1);
    KebabAfterPascalTail(r);
    var p := PascalFrom(r, false);
    assert PascalFrom(w, true) == [Upper(w[0])] + p;
    assert ([Upper(w[0])] + p)[1..] == p;
    assert w == [w[0]] + r;
  }

  // ---------------------------------------------------------------------------
  // Separators pass through untouched

  lemma {:induction false} PascalFromKeepsOut(s: string, capNext: bool, c: char)
    requires !IsLower(c) && !IsUpper(c) && c != '-' && c !in s
    ensures c !in PascalFrom(s, capNext)
    decreases |s|
  {
    if s != [] {
      PascalFromKeepsOut(s[1..], true, c);
      PascalFromKeepsOut(s[1..], false, c);
    }
  }

  /** A character that is neither a letter nor '-' appears in
      `camel()->title()` only where it appeared in the input. */
  lemma CamelTitleKeepsOut(s: string, c: char)
    requires !IsLower(c) && !IsUpper(c) && c != '-' && c !in s
    ensures c !in CamelTitle(s)
  {
    CamelTitleIsPascalScan(s);
    PascalFromKeepsOut(s, true, c);
  }

  lemma {:induction false} KebabFromKeepsOut(s: string, atStart: bool, c: char)
    requires !IsLower(c) && !IsUpper(c) && c != '-' && c !in s
    ensures c !in KebabFrom(s, atStart)
    decreases |s|
  {
    if s != [] {
      KebabFromKeepsOut(s[1..], false, c);
    }
  }

  /** A character that is neither a letter nor '-' appears in the kebab form
      only where it appeared in the input. */
  lemma KebabKeepsOut(s: string, c: char)
    requires !IsLower(c) && !IsUpper(c) && c != '-' && c !in s
    ensures c !in Kebab(s)
  {
    KebabIsKebabScan(s);
    KebabFromKeepsOut(s, true, c);
  }
}
