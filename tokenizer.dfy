/**
 * `Tokenizer.tokenize`: lower-case the text, turn every character outside `[a-z0-9 ]` into a
 * space, split on runs of spaces and keep the non-blank pieces. A null text has no tokens.
 */
module Tokenizer {
  import opened Wrappers
  import opened JavaStrings

  /** The characters a token is made of. */
  predicate IsTokenChar(c: char) {
    'a' <= c <= 'z' || '0' <= c <= '9'
  }

  predicate IsToken(s: string) {
    s != [] && forall i :: 0 <= i < |s| ==> IsTokenChar(s[i])
  }

  /** `toLowerCase().replaceAll("[^a-z0-9 ]", " ")`: each character becomes a token character or a space. */
  function Normalize(text: string): (r: string)
    ensures |r| == |text|
    ensures forall i :: 0 <= i < |r| ==> IsTokenChar(r[i]) || r[i] == ' '
  {
    seq(|text|, i requires 0 <= i < |text| => if IsTokenChar(LowerAscii(text[i])) then LowerAscii(text[i]) else ' ')
  }

  /** The items that are not blank, in order (the `isBlank` filter loop). */
  function NonBlank(xs: seq<string>): (r: seq<string>)
    ensures |r| <= |xs|
    ensures forall i :: 0 <= i < |r| ==> !IsBlank(r[i]) && r[i] in xs
  {
    if xs == [] then []
    else (if IsBlank(xs[0]) then [] else [xs[0]]) + NonBlank(xs[1..])
  }

  /** `tokenize(text)`; `None` stands for a null text. */
  function Tokenize(text: Option<string>): seq<string> {
    match text
    case None => []
    case Some(t) => NonBlank(JavaSplit(Space, Normalize(t)))
  }

  // ---------------------------------------------------------------- properties

  /** A piece of normalised text is blank exactly when it is empty. */
  lemma PieceBlankIffEmpty(p: string)
    requires forall i :: 0 <= i < |p| ==> IsTokenChar(p[i])
    ensures IsBlank(p) <==> p == []
  {
    if p != [] {
      assert !IsJavaWhitespace(p[0]);
    }
  }

  /** Every piece of split normalised text consists of token characters. */
  lemma SplitPiecesOfNormalized(t: string)
    ensures forall i :: 0 <= i < |JavaSplit(Space, Normalize(t))| ==>
      forall j :: 0 <= j < |JavaSplit(Space, Normalize(t))[i]| ==> IsTokenChar(JavaSplit(Space, Normalize(t))[i][j])
  {
    var s := Normalize(t);
    var xs := JavaSplit(Space, s);
    if !NoSeparator(Space, s) {
      var ps := Pieces(Space, s);
      PiecesOfNormalized(s);
      assert xs == ps[..|xs|];
    }
  }

  /** The pieces of text made of token characters and spaces consist of token characters. */
  lemma {:induction false} PiecesOfNormalized(s: string)
    requires forall i :: 0 <= i < |s| ==> IsTokenChar(s[i]) || s[i] == ' '
    ensures forall i :: 0 <= i < |Pieces(Space, s)| ==>
      forall j :: 0 <= j < |Pieces(Space, s)[i]| ==> IsTokenChar(Pieces(Space, s)[i][j])
    decreases |s|
  {
    var w := Word(Space, s);
    if |w| != |s| {
      var rest := SkipRun(Space, s[|w|..]);
      assert forall i :: 0 <= i < |rest| ==> rest[i] == s[|s| - |rest| + i];
      PiecesOfNormalized(rest);
      assert Pieces(Space, s) == [w] + Pieces(Space, rest);
    }
  }

  /** Tokens are never empty or blank, and consist of `[a-z0-9]` only: everything else separated them. */
  lemma TokensWellFormed(text: Option<string>)
    ensures forall i :: 0 <= i < |Tokenize(text)| ==> IsToken(Tokenize(text)[i]) && !IsBlank(Tokenize(text)[i])
  {
    if text.Some? {
      var xs := JavaSplit(Space, Normalize(text.value));
      SplitPiecesOfNormalized(text.value);
      forall i | 0 <= i < |Tokenize(text)| ensures IsToken(Tokenize(text)[i]) {
        var tok := Tokenize(text)[i];
        assert tok in xs;
        var m :| 0 <= m < |xs| && xs[m] == tok;
        PieceBlankIffEmpty(tok);
      }
    }
  }

  /** Filtering blanks out of pieces made of token characters drops only empty strings. */
  lemma {:induction false} NonBlankKeepsText(xs: seq<string>)
    requires forall i :: 0 <= i < |xs| ==> forall j :: 0 <= j < |xs[i]| ==> IsTokenChar(xs[i][j])
    ensures Concat(NonBlank(xs)) == Concat(xs)
  {
    if xs != [] {
      NonBlankKeepsText(xs[1..]);
      PieceBlankIffEmpty(xs[0]);
      assert NonBlank(xs) == (if IsBlank(xs[0]) then [] else [xs[0]]) + NonBlank(xs[1..]);
      ConcatAppend(if IsBlank(xs[0]) then [] else [xs[0]], NonBlank(xs[1..]));
    }
  }

  /**
   * Tokens keep the input order and repeats: concatenated, they are the normalised text with its
   * spaces removed.
   */
  lemma TokensKeepText(t: string)
    ensures Concat(Tokenize(Some(t))) == WithoutSeparators(Space, Normalize(t))
  {
    SplitPiecesOfNormalized(t);
    NonBlankKeepsText(JavaSplit(Space, Normalize(t)));
    SplitKeepsText(Space, Normalize(t));
  }

  /** Non-blank items pass the filter unchanged. */
  lemma {:induction false} NonBlankOfNonBlank(xs: seq<string>)
    requires forall i :: 0 <= i < |xs| ==> !IsBlank(xs[i])
    ensures NonBlank(xs) == xs
  {
    if xs != [] {
      NonBlankOfNonBlank(xs[1..]);
      assert xs == [xs[0]] + xs[1..];
    }
  }

  /** Tokens joined by single spaces are already normalised. */
  lemma {:induction false} JoinNormalized(ts: seq<string>)
    requires forall i :: 0 <= i < |ts| ==> IsToken(ts[i])
    ensures Normalize(JoinSpaces(ts)) == JoinSpaces(ts)
  {
    var s := JoinSpaces(ts);
    JoinChars(ts);
    assert forall i :: 0 <= i < |s| ==> LowerAscii(s[i]) == s[i];
  }

  /** Every character of tokens joined by single spaces is a token character or the space. */
  lemma {:induction false} JoinChars(ts: seq<string>)
    requires forall i :: 0 <= i < |ts| ==> IsToken(ts[i])
    ensures forall j :: 0 <= j < |JoinSpaces(ts)| ==> IsTokenChar(JoinSpaces(ts)[j]) || JoinSpaces(ts)[j] == ' '
  {
    if |ts| > 1 {
      JoinChars(ts[1..]);
      var s := JoinSpaces(ts);
      var rest := JoinSpaces(ts[1..]);
      assert s == ts[0] + " " + rest;
      forall j | 0 <= j < |s| ensures IsTokenChar(s[j]) || s[j] == ' ' {
        if j > |ts[0]| {
          assert s[j] == rest[j - |ts[0]| - 1];
        }
      }
    }
  }

  /** Tokenising the tokens joined by single spaces gives the same tokens back. */
  lemma TokenizeIdempotent(t: string)
    ensures Tokenize(Some(JoinSpaces(Tokenize(Some(t))))) == Tokenize(Some(t))
  {
    var ts := Tokenize(Some(t));
    TokensWellFormed(Some(t));
    JoinNormalized(ts);
    var s := JoinSpaces(ts);
    if ts == [] {
      assert NoSeparator(Space, s);
      assert JavaSplit(Space, s) == [[]];
      assert IsBlank([]);
    } else {
      forall i | 0 <= i < |ts| ensures ts[i] != [] && NoSeparator(Space, ts[i]) {
        assert IsToken(ts[i]);
      }
      PiecesOfJoin(ts);
      if NoSeparator(Space, s) {
        WordOfNoSeparator(s);
        assert JavaSplit(Space, s) == ts;
      } else {
        assert ts[|ts| - 1] != [];
        assert JavaSplit(Space, s) == ts;
      }
      NonBlankOfNonBlank(ts);
    }
  }
}
