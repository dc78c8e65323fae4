/**
 * The pieces of `java.lang.String` the index relies on: character classes, `trim`, ASCII
 * lower-casing and `split` on a regular expression that matches runs of one class of separator.
 * A Dafny `string` holds Unicode scalar values; a Java string is the same text.
 */
module JavaStrings {

  /** The characters the regular-expression class `\s` matches: space, tab, line feed, vertical tab, form feed, carriage return. */
  predicate IsRegexSpace(c: char) {
    c == ' ' || 0x09 <= c as int <= 0x0D
  }

  /** `Character.isWhitespace`: the Unicode space, line and paragraph separators except the no-break ones, and the ASCII controls 9-13 and 28-31. */
  predicate IsJavaWhitespace(c: char) {
    var x := c as int;
    (0x09 <= x <= 0x0D) || (0x1C <= x <= 0x20) || x == 0x1680 || (0x2000 <= x <= 0x2006)
    || (0x2008 <= x <= 0x200A) || x == 0x2028 || x == 0x2029 || x == 0x205F || x == 0x3000
  }

  /** `String.isBlank`: empty, or whitespace only. */
  predicate IsBlank(s: string) {
    forall i :: 0 <= i < |s| ==> IsJavaWhitespace(s[i])
  }

  /** The lower-case of an ASCII letter; every other character is left alone. */
  function LowerAscii(c: char): (r: char)
    ensures 'A' <= c <= 'Z' ==> 'a' <= r <= 'z' && r as int == c as int + 32
    ensures !('A' <= c <= 'Z') ==> r == c
  {
    if 'A' <= c <= 'Z' then (c as int + 32) as char else c
  }

  /** `toLowerCase`, restricted to the ASCII letters. */
  function Lower(s: string): (r: string)
    ensures |r| == |s|
    ensures forall i :: 0 <= i < |s| ==> r[i] == LowerAscii(s[i])
  {
    seq(|s|, i requires 0 <= i < |s| => LowerAscii(s[i]))
  }

  /** Characters `trim` removes: every code point up to and including the space. */
  predicate IsTrimmed(c: char) {
    c as int <= 0x20
  }

  /** `trim`: drop leading and trailing characters at or below the space. */
  function Trim(s: string): (r: string)
    ensures r == [] || (!IsTrimmed(r[0]) && !IsTrimmed(r[|r| - 1]))
  {
    TrimEnd(TrimStart(s))
  }

  function TrimStart(s: string): (r: string)
    ensures r == [] || !IsTrimmed(r[0])
  {
    if s != [] && IsTrimmed(s[0]) then TrimStart(s[1..]) else s
  }

  function TrimEnd(s: string): (r: string)
    ensures r == [] || !IsTrimmed(r[|r| - 1])
    ensures |r| <= |s| && r == s[..|r|]
  {
    if s != [] && IsTrimmed(s[|s| - 1]) then TrimEnd(s[..|s| - 1]) else s
  }

  // ---------------------------------------------------------------- split

  /** The separator a `split` regular expression matches runs of: `" +"` or `"\\s+"`. */
  datatype Separator = Space | RegexSpace

  predicate IsSeparator(k: Separator, c: char) {
    match k
    case Space => c == ' '
    case RegexSpace => IsRegexSpace(c)
  }

  predicate NoSeparator(k: Separator, s: string) {
    forall i :: 0 <= i < |s| ==> !IsSeparator(k, s[i])
  }

  /** The longest prefix of `s` with no separator in it. */
  function Word(k: Separator, s: string): (w: string)
    ensures |w| <= |s| && w == s[..|w|]
    ensures NoSeparator(k, w)
    ensures |w| < |s| ==> IsSeparator(k, s[|w|])
  {
    if s == [] || IsSeparator(k, s[0]) then [] else [s[0]] + Word(k, s[1..])
  }

  /** `s` without its leading run of separators. */
  function SkipRun(k: Separator, s: string): (r: string)
    ensures |r| <= |s| && r == s[|s| - |r|..]
    ensures s != [] && IsSeparator(k, s[0]) ==> |r| < |s|
    ensures r == [] || !IsSeparator(k, r[0])
  {
    if s != [] && IsSeparator(k, s[0]) then SkipRun(k, s[1..]) else s
  }

  /**
   * The texts between the maximal runs of separators, from left to right: a leading empty piece
   * when `s` starts with a separator and a trailing one when it ends with one.
   */
  function Pieces(k: Separator, s: string): (r: seq<string>)
    ensures |r| >= 1
    ensures forall i :: 0 <= i < |r| ==> NoSeparator(k, r[i])
    decreases |s|
  {
    var w := Word(k, s);
    if |w| == |s| then [s] else [w] + Pieces(k, SkipRun(k, s[|w|..]))
  }

  /** The list with its trailing empty strings removed. */
  function DropTrailingEmpty(xs: seq<string>): (r: seq<string>)
    ensures |r| <= |xs| && r == xs[..|r|]
    ensures r == [] || r[|r| - 1] != []
  {
    if xs != [] && xs[|xs| - 1] == [] then DropTrailingEmpty(xs[..|xs| - 1]) else xs
  }

  /**
   * `s.split(regex)` for a regular expression matching runs of separators: the whole string when
   * nothing matches, otherwise the pieces without the trailing empty ones.
   */
  function JavaSplit(k: Separator, s: string): seq<string> {
    if NoSeparator(k, s) then [s] else DropTrailingEmpty(Pieces(k, s))
  }

  /** The pieces concatenated. */
  function Concat(xs: seq<string>): string {
    if xs == [] then [] else xs[0] + Concat(xs[1..])
  }

  /** The characters of `s` that are not separators, in order. */
  function WithoutSeparators(k: Separator, s: string): (r: string)
    ensures NoSeparator(k, r)
  {
    if s == [] then [] else (if IsSeparator(k, s[0]) then [] else [s[0]]) + WithoutSeparators(k, s[1..])
  }

  /** The items joined with single spaces between them (`String.join(" ", items)`). */
  function JoinSpaces(xs: seq<string>): string {
    if xs == [] then [] else if |xs| == 1 then xs[0] else xs[0] + " " + JoinSpaces(xs[1..])
  }

  // ---------------------------------------------------------------- lemmas about split

  lemma ConcatAppend(xs: seq<string>, ys: seq<string>)
    ensures Concat(xs + ys) == Concat(xs) + Concat(ys)
  {
    if xs == [] {
      assert xs + ys == ys;
    } else {
      assert (xs + ys)[1..] == xs[1..] + ys;
      ConcatAppend(xs[1..], ys);
    }
  }

  lemma {:induction false} WithoutSeparatorsAppend(k: Separator, a: string, b: string)
    ensures WithoutSeparators(k, a + b) == WithoutSeparators(k, a) + WithoutSeparators(k, b)
  {
    if a == [] {
      assert a + b == b;
    } else {
      assert (a + b)[0] == a[0] && (a + b)[1..] == a[1..] + b;
      WithoutSeparatorsAppend(k, a[1..], b);
    }
  }

  lemma {:induction false} WithoutSeparatorsNone(k: Separator, s: string)
    requires NoSeparator(k, s)
    ensures WithoutSeparators(k, s) == s
  {
    if s != [] {
      WithoutSeparatorsNone(k, s[1..]);
      assert s == [s[0]] + s[1..];
    }
  }

  lemma {:induction false} WithoutSeparatorsRun(k: Separator, s: string)
    ensures WithoutSeparators(k, SkipRun(k, s)) == WithoutSeparators(k, s)
  {
    if s != [] && IsSeparator(k, s[0]) {
      WithoutSeparatorsRun(k, s[1..]);
    }
  }

  /** Splitting loses exactly the separators: the pieces hold every other character, in order. */
  lemma {:induction false} PiecesKeepText(k: Separator, s: string)
    ensures Concat(Pieces(k, s)) == WithoutSeparators(k, s)
    decreases |s|
  {
    var w := Word(k, s);
    if |w| == |s| {
      assert w == s;
      WithoutSeparatorsNone(k, s);
    } else {
      var tail := s[|w|..];
      var rest := SkipRun(k, tail);
      assert |rest| < |s|;
      PiecesKeepText(k, rest);
      assert Concat(Pieces(k, s)) == w + WithoutSeparators(k, tail) by {
        assert Pieces(k, s) == [w] + Pieces(k, rest);
        WithoutSeparatorsRun(k, tail);
      }
      assert WithoutSeparators(k, s) == w + WithoutSeparators(k, tail) by {
        assert s == w + tail;
        WithoutSeparatorsAppend(k, w, tail);
        WithoutSeparatorsNone(k, w);
      }
    }
  }

  lemma {:induction false} DropTrailingEmptyKeepsText(xs: seq<string>)
    ensures Concat(DropTrailingEmpty(xs)) == Concat(xs)
  {
    if xs != [] && xs[|xs| - 1] == [] {
      var init := xs[..|xs| - 1];
      DropTrailingEmptyKeepsText(init);
      assert xs == init + [[]];
      ConcatAppend(init, [[]]);
    }
  }

  /** `split` loses exactly the separators, whatever happens to the empty pieces. */
  lemma SplitKeepsText(k: Separator, s: string)
    ensures Concat(JavaSplit(k, s)) == WithoutSeparators(k, s)
  {
    PiecesKeepText(k, s);
    if NoSeparator(k, s) {
      WithoutSeparatorsNone(k, s);
    } else {
      DropTrailingEmptyKeepsText(Pieces(k, s));
    }
  }

  /** A text made of non-empty separator-free words joined by single separators splits back into those words. */
  lemma {:induction false} PiecesOfJoin(xs: seq<string>)
    requires xs != []
    requires forall i :: 0 <= i < |xs| ==> xs[i] != [] && NoSeparator(Space, xs[i])
    ensures Pieces(Space, JoinSpaces(xs)) == xs
  {
    var s := JoinSpaces(xs);
    if |xs| == 1 {
      WordOfNoSeparator(xs[0]);
    } else {
      var rest := JoinSpaces(xs[1..]);
      PiecesOfJoin(xs[1..]);
      assert s == xs[0] + [' '] + rest;
      WordBeforeSpace(xs[0], rest);
      assert s[|xs[0]|..] == [' '] + rest;
      JoinStartsWithWord(xs[1..]);
      assert SkipRun(Space, [' '] + rest) == rest;
    }
  }

  lemma {:induction false} WordOfNoSeparator(w: string)
    requires NoSeparator(Space, w)
    ensures Word(Space, w) == w
  {
    if w != [] {
      WordOfNoSeparator(w[1..]);
    }
  }

  lemma {:induction false} WordBeforeSpace(w: string, rest: string)
    requires NoSeparator(Space, w)
    ensures Word(Space, w + [' '] + rest) == w
  {
    if w == [] {
      assert (w + [' '] + rest)[0] == ' ';
    } else {
      assert (w + [' '] + rest)[1..] == w[1..] + [' '] + rest;
      WordBeforeSpace(w[1..], rest);
    }
  }

  lemma JoinStartsWithWord(xs: seq<string>)
    requires xs != [] && xs[0] != [] && NoSeparator(Space, xs[0])
    ensures JoinSpaces(xs) != [] && JoinSpaces(xs)[0] != ' '
  {
  }
}
