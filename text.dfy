/** The PHP string builtins the loader relies on, over strings of code points
    (the loader uses the mb_* variants throughout). */
module Text {

  /** `implode(sep, parts)`. */
  function Join(parts: seq<string>, sep: char): string
  {
    if |parts| == 0 then []
    else if |parts| == 1 then parts[0]
    else parts[0] + [sep] + Join(parts[1..], sep)
  }

  /** `explode(sep, s)`: the pieces between the separators, never none. */
  function Split(s: string, sep: char): (parts: seq<string>)
    ensures |parts| >= 1
    decreases |s|
  {
    if s == [] then [[]]
    else
      var rest := Split(s[1..], sep);
      if s[0] == sep then [[]] + rest
      else [[s[0]] + rest[0]] + rest[1..]
  }

  /** No piece of `explode` holds the separator, and `implode` glues the
      pieces back into `s`. */
  lemma {:induction false} SplitPieces(s: string, sep: char)
    ensures forall i :: 0 <= i < |Split(s, sep)| ==> sep !in Split(s, sep)[i]
    ensures Join(Split(s, sep), sep) == s
    decreases |s|
  {
    if s != [] {
      SplitPieces(s[1..], sep);
      var rest := Split(s[1..], sep);
      if s[0] == sep {
        assert ([[]] + rest)[1..] == rest;
      } else {
        var parts := [[s[0]] + rest[0]] + rest[1..];
        assert parts[1..] == rest[1..];
        assert forall i :: 1 <= i < |parts| ==> parts[i] == rest[i];
        assert s == [s[0]] + s[1..];
      }
    }
  }

  lemma {:induction false} SplitWithoutSeparator(s: string, sep: char)
    requires sep !in s
    ensures Split(s, sep) == [s]
    decreases |s|
  {
    if s != [] {
      SplitWithoutSeparator(s[1..], sep);
      assert s == [s[0]] + s[1..];
    }
  }

  lemma {:induction false} SplitAfterPiece(p: string, sep: char, t: string)
    requires sep !in p
    ensures Split(p + [sep] + t, sep) == [p] + Split(t, sep)
    decreases |p|
  {
    var s := p + [sep] + t;
    if p == [] {
      assert s[1..] == t;
    } else {
      assert s[1..] == p[1..] + [sep] + t;
      SplitAfterPiece(p[1..], sep, t);
      assert [s[0]] + p[1..] == p;
    }
  }

  /** `explode` undoes `implode` when no piece contains the separator. */
  lemma {:induction false} SplitJoin(parts: seq<string>, sep: char)
    requires |parts| >= 1
    requires forall i :: 0 <= i < |parts| ==> sep !in parts[i]
    ensures Split(Join(parts, sep), sep) == parts
    decreases |parts|
  {
    if |parts| == 1 {
      SplitWithoutSeparator(parts[0], sep);
    } else {
      SplitJoin(parts[1..], sep);
      SplitAfterPiece(parts[0], sep, Join(parts[1..], sep));
      assert [parts[0]] + parts[1..] == parts;
    }
  }

  /** `str_replace(a, b, s)` for one-character needle and replacement. */
  function ReplaceChar(s: string, a: char, b: char): string
  {
    seq(|s|, i requires 0 <= i < |s| => if s[i] == a then b else s[i])
  }

  /** After a replacement by a different character the needle is gone and
      every other character is where it was. */
  lemma ReplaceCharRemovesNeedle(s: string, a: char, b: char)
    requires a != b
    ensures a !in ReplaceChar(s, a, b)
    ensures forall i :: 0 <= i < |s| && s[i] != a ==> ReplaceChar(s, a, b)[i] == s[i]
  {
  }

  lemma ReplaceCharAppend(s: string, t: string, a: char, b: char)
    ensures ReplaceChar(s + t, a, b) == ReplaceChar(s, a, b) + ReplaceChar(t, a, b)
  {
  }

  lemma ReplaceCharAbsent(s: string, a: char, b: char)
    requires a !in s
    ensures ReplaceChar(s, a, b) == s
  {
  }

  /** Replacing the glue of an `implode` re-glues the same pieces with the new
      character. */
  lemma {:induction false} ReplaceJoin(parts: seq<string>, a: char, b: char)
    requires forall i :: 0 <= i < |parts| ==> a !in parts[i]
    ensures ReplaceChar(Join(parts, a), a, b) == Join(parts, b)
    decreases |parts|
  {
    if |parts| == 1 {
      ReplaceCharAbsent(parts[0], a, b);
    } else if |parts| > 1 {
      ReplaceJoin(parts[1..], a, b);
      ReplaceCharAbsent(parts[0], a, b);
      ReplaceCharAppend(parts[0] + [a], Join(parts[1..], a), a, b);
      ReplaceCharAppend(parts[0], [a], a, b);
    }
  }

  /** Replacing one separator by a character the string does not contain keeps
      the pieces: the segments seen through the new separator are the old ones. */
  lemma {:induction false} ReplaceCharSplit(s: string, a: char, b: char)
    requires b !in s
    ensures Split(ReplaceChar(s, a, b), b) == Split(s, a)
    decreases |s|
  {
    if s != [] {
      var r := ReplaceChar(s, a, b);
      assert r[1..] == ReplaceChar(s[1..], a, b);
      ReplaceCharSplit(s[1..], a, b);
    }
  }

  /** `rtrim(s, c)`: `s` without its trailing run of `c`. */
  function TrimRight(s: string, c: char): (r: string)
    ensures |r| <= |s| && r == s[..|r|]
    ensures |r| > 0 ==> r[|r| - 1] != c
    ensures forall k :: |r| <= k < |s| ==> s[k] == c
    decreases |s|
  {
    if |s| > 0 && s[|s| - 1] == c then TrimRight(s[..|s| - 1], c) else s
  }

  /** `ltrim(s, c)`: `s` without its leading run of `c`. */
  function TrimLeft(s: string, c: char): (r: string)
    ensures |r| <= |s| && r == s[|s| - |r|..]
    ensures |r| > 0 ==> r[0] != c
    ensures forall k :: 0 <= k < |s| - |r| ==> s[k] == c
    decreases |s|
  {
    if |s| > 0 && s[0] == c then TrimLeft(s[1..], c) else s
  }

  /** `trim(s, c)`: the longest infix of `s` that neither starts nor ends with
      `c`, everything cut away on both sides being `c`. */
  function Trim(s: string, c: char): (r: string)
    ensures |r| > 0 ==> r[0] != c && r[|r| - 1] != c
    ensures exists i :: 0 <= i <= |s| - |r| && r == s[i..][..|r|] &&
                        (forall k :: 0 <= k < i ==> s[k] == c) &&
                        (forall k :: i + |r| <= k < |s| ==> s[k] == c)
  {
    var l := TrimRight(s, c);
    var r := TrimLeft(l, c);
    var i := |l| - |r|;
    assert i + |r| == |l|;
    assert |r| > 0 ==> r[|r| - 1] == l[|l| - 1];
    assert r == s[i..|l|] == s[i..][..|r|];
    assert forall k :: 0 <= k < i ==> s[k] == l[k] == c;
    r
  }

  /** `0 === mb_strpos(s, p)`: `p` occurs at the very start of `s` (PHP 8
      reports position 0 for an empty needle). */
  predicate StartsWith(s: string, p: string)
  {
    |p| <= |s| && s[..|p|] == p
  }

  /** `mb_substr(s, n)`: empty once the start lies past the end. */
  function Drop(s: string, n: nat): string
  {
    if n <= |s| then s[n..] else []
  }

  /** `mb_substr(s, 0, -n)`: empty once the cut exceeds the length. */
  function DropLast(s: string, n: nat): string
  {
    if n <= |s| then s[..|s| - n] else []
  }
}
