/**
 * Step 3 of the extractor: the clean-up applied to each scanned list literal
 * before it is parsed. Two substitutions run one after the other over the raw
 * literal: `,\s*}` becomes `}`, then `,\s*]` becomes `]`. Each is a
 * left-to-right, non-overlapping substitution; `\s*` is greedy and the closing
 * character is not white space, so a match is a comma, the whole run of white
 * space after it, and the closing character.
 */
module CommaStrip {
  import opened Wrappers
  import opened Chars
  import opened SeqFacts

  /** The length of the match of `,\s*close` at the start of `s`, if one starts there. */
  function CommaMatch(s: string, close: char): (r: Option<nat>)
    ensures r.Some? ==> 2 <= r.value <= |s| && s[0] == ','
  {
    if s == [] || s[0] != ',' then None
    else
      var m := 1 + SpaceLen(s[1..]);
      if m < |s| && s[m] == close then Some(m + 1) else None
  }

  /** One substitution pass: every match of `,\s*close` becomes `close`. */
  function StripBefore(s: string, close: char): string
    decreases |s|
  {
    if s == [] then []
    else match CommaMatch(s, close)
      case Some(len) => [close] + StripBefore(s[len..], close)
      case None => [s[0]] + StripBefore(s[1..], close)
  }

  /** Both passes, braces first and brackets second. */
  function StripTrailingCommas(literal: string): string
  {
    StripBefore(StripBefore(literal, '}'), ']')
  }

  // ---------------------------------------------------------------------------
  // The result is a subsequence of the literal

  /** `a` can be obtained from `b` by deleting characters. */
  predicate IsSubsequence(a: string, b: string)
    decreases |b|
  {
    if b == [] then a == []
    else (a != [] && a[0] == b[0] && IsSubsequence(a[1..], b[1..])) || IsSubsequence(a, b[1..])
  }

  /** Deleting characters in front of a sequence keeps its subsequences. */
  lemma {:induction false} SubsequenceDropPrefix(a: string, p: string, b: string)
    requires IsSubsequence(a, b)
    ensures IsSubsequence(a, p + b)
    decreases |p|
  {
    if p != [] {
      SubsequenceDropPrefix(a, p[1..], b);
      assert (p + b)[1..] == p[1..] + b;
    } else {
      assert p + b == b;
    }
  }

  /** Every sequence is a subsequence of itself. */
  lemma {:induction false} SubsequenceRefl(a: string)
    ensures IsSubsequence(a, a)
    decreases |a|
  {
    if a != [] {
      SubsequenceRefl(a[1..]);
    }
  }

  /** Deleting twice is deleting once. */
  lemma {:induction false} SubsequenceTrans(a: string, b: string, c: string)
    requires IsSubsequence(a, b) && IsSubsequence(b, c)
    ensures IsSubsequence(a, c)
    decreases |c|
  {
    if c == [] {
    } else if b != [] && b[0] == c[0] && IsSubsequence(b[1..], c[1..]) {
      if a != [] && a[0] == b[0] && IsSubsequence(a[1..], b[1..]) {
        SubsequenceTrans(a[1..], b[1..], c[1..]);
      } else {
        SubsequenceTrans(a, b[1..], c[1..]);
      }
    } else {
      SubsequenceTrans(a, b, c[1..]);
    }
  }

  /** Where a match starts, the text is the comma and white space, then the closing character, then the rest. */
  lemma MatchPieces(s: string, close: char, len: nat)
    requires CommaMatch(s, close) == Some(len)
    ensures s == s[..len - 1] + ([close] + s[len..])
    ensures AllSpace(s[1..len - 1])
  {
    SpaceRunIsSpace(s[1..]);
    SuffixSlices(s, 1, len - 2);
    assert s == s[..len - 1] + [s[len - 1]] + s[len..];
  }

  /** One pass only deletes characters. */
  lemma {:induction false} StripIsSubsequence(s: string, close: char)
    ensures IsSubsequence(StripBefore(s, close), s)
    decreases |s|
  {
    if s == [] {
    } else {
      match CommaMatch(s, close)
      case Some(len) =>
        var rest := StripBefore(s[len..], close);
        StripIsSubsequence(s[len..], close);
        assert IsSubsequence([close] + rest, [close] + s[len..]) by {
          HeadTail(close, rest);
          HeadTail(close, s[len..]);
        }
        MatchPieces(s, close, len);
        SubsequenceDropPrefix([close] + rest, s[..len - 1], [close] + s[len..]);
      case None =>
        StripIsSubsequence(s[1..], close);
        HeadTail(s[0], StripBefore(s[1..], close));
    }
  }

  /** Both passes only delete characters. */
  lemma StripTrailingIsSubsequence(literal: string)
    ensures IsSubsequence(StripTrailingCommas(literal), literal)
  {
    var once := StripBefore(literal, '}');
    StripIsSubsequence(literal, '}');
    StripIsSubsequence(once, ']');
    SubsequenceTrans(StripTrailingCommas(literal), once, literal);
  }

  // ---------------------------------------------------------------------------
  // Only commas and white space are deleted

  /** The text without its commas and white space. */
  function Significant(s: string): string
  {
    if s == [] then []
    else if s[0] == ',' || IsSpace(s[0]) then Significant(s[1..])
    else [s[0]] + Significant(s[1..])
  }

  lemma {:induction false} SignificantAppend(a: string, b: string)
    ensures Significant(a + b) == Significant(a) + Significant(b)
    decreases |a|
  {
    if a == [] {
      assert a + b == b;
    } else {
      assert (a + b)[0] == a[0];
      assert (a + b)[1..] == a[1..] + b;
      SignificantAppend(a[1..], b);
    }
  }

  /** A comma followed by white space is not significant. */
  lemma {:induction false} CommaSpacesInsignificant(s: string)
    requires s != [] && s[0] == ',' && AllSpace(s[1..])
    ensures Significant(s) == []
    decreases |s|
  {
    if |s| > 1 {
      var t := [','] + s[2..];
      assert t[1..] == s[2..];
      CommaSpacesInsignificant(t);
      assert Significant(s) == Significant(s[1..]) == Significant(s[2..]);
    }
  }

  /** One pass keeps every character other than commas and white space, in order. */
  lemma {:induction false} StripKeepsSignificant(s: string, close: char)
    requires close != ',' && !IsSpace(close)
    ensures Significant(StripBefore(s, close)) == Significant(s)
    decreases |s|
  {
    if s == [] {
    } else {
      match CommaMatch(s, close)
      case Some(len) =>
        var rest := StripBefore(s[len..], close);
        StripKeepsSignificant(s[len..], close);
        MatchPieces(s, close, len);
        CommaSpacesInsignificant(s[..len - 1]);
        SignificantAppend(s[..len - 1], [close] + s[len..]);
        SignificantAppend([close], s[len..]);
        SignificantAppend([close], rest);
      case None =>
        StripKeepsSignificant(s[1..], close);
        SignificantAppend([s[0]], StripBefore(s[1..], close));
        SignificantAppend([s[0]], s[1..]);
        assert [s[0]] + s[1..] == s;
    }
  }

  /** The brackets and braces of a text, in order. */
  function Brackets(s: string): string
  {
    if s == [] then []
    else if s[0] in "[]{}" then [s[0]] + Brackets(s[1..])
    else Brackets(s[1..])
  }

  lemma {:induction false} BracketsOfSignificant(s: string)
    ensures Brackets(Significant(s)) == Brackets(s)
    decreases |s|
  {
    if s != [] {
      BracketsOfSignificant(s[1..]);
      if !(s[0] == ',' || IsSpace(s[0])) {
        HeadTail(s[0], Significant(s[1..]));
      }
    }
  }

  /**
   * Both passes delete only commas and white space: every other character,
   * and in particular every bracket and brace, stays in place and in order.
   */
  lemma StripTrailingKeepsBrackets(literal: string)
    ensures Significant(StripTrailingCommas(literal)) == Significant(literal)
    ensures Brackets(StripTrailingCommas(literal)) == Brackets(literal)
  {
    StripKeepsSignificant(literal, '}');
    StripKeepsSignificant(StripBefore(literal, '}'), ']');
    BracketsOfSignificant(literal);
    BracketsOfSignificant(StripTrailingCommas(literal));
  }

  // ---------------------------------------------------------------------------
  // A pass changes the text exactly when a trailing comma is present

  /** Somewhere in `s` a comma is followed by optional white space and `close`. */
  predicate HasTrailingComma(s: string, close: char)
  {
    exists i :: 0 <= i < |s| && CommaMatch(s[i..], close).Some?
  }

  lemma {:induction false} StripShortens(s: string, close: char)
    ensures |StripBefore(s, close)| <= |s|
    ensures HasTrailingComma(s, close) ==> |StripBefore(s, close)| < |s|
    decreases |s|
  {
    if s != [] {
      match CommaMatch(s, close)
      case Some(len) =>
        StripShortens(s[len..], close);
      case None =>
        StripShortens(s[1..], close);
        if HasTrailingComma(s, close) {
          var i :| 0 <= i < |s| && CommaMatch(s[i..], close).Some?;
          assert i != 0;
          assert s[1..][i - 1..] == s[i..];
        }
    }
  }

  lemma {:induction false} NoTrailingUnchanged(s: string, close: char)
    requires !HasTrailingComma(s, close)
    ensures StripBefore(s, close) == s
    decreases |s|
  {
    if s != [] {
      assert CommaMatch(s[0..], close).None?;
      assert s[0..] == s;
      assert !HasTrailingComma(s[1..], close) by {
        forall i | 0 <= i < |s[1..]|
          ensures CommaMatch(s[1..][i..], close).None?
        {
          assert s[1..][i..] == s[i + 1..];
        }
      }
      NoTrailingUnchanged(s[1..], close);
    }
  }

  /** A pass leaves the text as it is exactly when no comma stands before `close`. */
  lemma StripUnchangedIff(s: string, close: char)
    ensures StripBefore(s, close) == s <==> !HasTrailingComma(s, close)
  {
    StripShortens(s, close);
    if !HasTrailingComma(s, close) {
      NoTrailingUnchanged(s, close);
    }
  }

  // ---------------------------------------------------------------------------
  // Exactly the matched commas and white space are deleted

  /**
   * Position `j` of `s` lies inside a match of `,\s*close` that starts at or
   * before it, in front of the match's closing character.
   */
  predicate Covered(s: string, close: char, j: int)
  {
    exists p :: 0 <= p <= j < |s| && CommaMatch(s[p..], close).Some? && j < p + CommaMatch(s[p..], close).value - 1
  }

  /** Whether each position of `s` is covered. */
  function CoverMask(s: string, close: char): (m: seq<bool>)
    ensures |m| == |s|
  {
    seq(|s|, j requires 0 <= j < |s| => Covered(s, close, j))
  }

  /** The elements of `s` whose position is not marked in `drop`, in order. */
  function Select<T>(s: seq<T>, drop: seq<bool>): seq<T>
    requires |drop| == |s|
    decreases |s|
  {
    if s == [] then [] else (if drop[0] then [] else [s[0]]) + Select(s[1..], drop[1..])
  }

  /** The characters of `s` that no match of `,\s*close` covers, in order. */
  function Uncovered(s: string, close: char): string
  {
    Select(s, CoverMask(s, close))
  }

  /** A covered character is the comma or the white space of a match. */
  lemma CoveredIsCommaOrSpace(s: string, close: char, j: int)
    requires Covered(s, close, j)
    ensures s[j] == ',' || IsSpace(s[j])
  {
    var p :| 0 <= p <= j < |s| && CommaMatch(s[p..], close).Some? && j < p + CommaMatch(s[p..], close).value - 1;
    var len := CommaMatch(s[p..], close).value;
    if p < j {
      SpaceRunChar(s[p..][1..], j - p - 1);
      assert s[p..][1..][j - p - 1] == s[j];
    }
  }

  /** Each character of the leading white-space run is white space. */
  lemma {:induction false} SpaceRunChar(t: string, i: nat)
    requires i < SpaceLen(t)
    ensures IsSpace(t[i])
  {
    if i > 0 {
      SpaceRunChar(t[1..], i - 1);
    }
  }

  /** Where no match starts, the first character is not covered and the rest is covered as in the tail. */
  lemma NoMatchShift(s: string, close: char, j: nat)
    requires s != [] && CommaMatch(s, close).None? && j < |s|
    ensures !Covered(s, close, 0)
    ensures j >= 1 ==> (Covered(s, close, j) <==> Covered(s[1..], close, j - 1))
  {
    assert s[0..] == s;
    if j >= 1 && Covered(s, close, j) {
      var p :| 0 <= p <= j < |s| && CommaMatch(s[p..], close).Some? && j < p + CommaMatch(s[p..], close).value - 1;
      assert p != 0;
      assert s[1..][p - 1..] == s[p..];
    }
    if j >= 1 && Covered(s[1..], close, j - 1) {
      var p :| 0 <= p <= j - 1 < |s[1..]| && CommaMatch(s[1..][p..], close).Some?
        && j - 1 < p + CommaMatch(s[1..][p..], close).value - 1;
      assert s[1..][p..] == s[p + 1..];
    }
  }

  /** Inside a match, after its comma, no other match starts. */
  lemma NoMatchInside(s: string, close: char, len: nat, p: nat)
    requires close != ',' && CommaMatch(s, close) == Some(len) && 1 <= p < len
    ensures CommaMatch(s[p..], close).None?
  {
    if p < len - 1 {
      SpaceRunChar(s[1..], p - 1);
      assert s[1..][p - 1] == s[p];
    }
    assert s[p..][0] == s[p];
  }

  /** A match at the start covers its comma and white space but not its closing character. */
  lemma MatchCovers(s: string, close: char, len: nat, j: nat)
    requires close != ',' && CommaMatch(s, close) == Some(len) && j < len
    ensures Covered(s, close, j) <==> j < len - 1
  {
    assert s[0..] == s;
    if Covered(s, close, j) {
      var p :| 0 <= p <= j < |s| && CommaMatch(s[p..], close).Some? && j < p + CommaMatch(s[p..], close).value - 1;
      if p > 0 {
        NoMatchInside(s, close, len, p);
      }
    }
  }

  /** After a match at the start, positions are covered as in the text after the match. */
  lemma MatchShift(s: string, close: char, len: nat, j: nat)
    requires close != ',' && CommaMatch(s, close) == Some(len) && len <= j < |s|
    ensures Covered(s, close, j) <==> Covered(s[len..], close, j - len)
  {
    if Covered(s, close, j) {
      var p :| 0 <= p <= j < |s| && CommaMatch(s[p..], close).Some? && j < p + CommaMatch(s[p..], close).value - 1;
      assert s[0..] == s;
      if 0 < p < len {
        NoMatchInside(s, close, len, p);
      }
      assert p >= len;
      assert s[len..][p - len..] == s[p..];
    }
    if Covered(s[len..], close, j - len) {
      var p :| 0 <= p <= j - len < |s[len..]| && CommaMatch(s[len..][p..], close).Some?
        && j - len < p + CommaMatch(s[len..][p..], close).value - 1;
      assert s[len..][p..] == s[p + len..];
    }
  }

  /** Marked elements at the front are dropped. */
  lemma {:induction false} SkipDropped<T>(s: seq<T>, drop: seq<bool>, k: nat)
    requires k <= |s| == |drop| && forall j :: 0 <= j < k ==> drop[j]
    ensures Select(s, drop) == Select(s[k..], drop[k..])
    decreases k
  {
    if k > 0 {
      assert drop[0];
      SkipDropped(s[1..], drop[1..], k - 1);
      assert s[1..][k - 1..] == s[k..];
      assert drop[1..][k - 1..] == drop[k..];
    }
  }

  /** Where no match starts, the pass keeps the first character and goes on with the rest. */
  lemma KeptAfterNoMatch(s: string, close: char)
    requires s != [] && CommaMatch(s, close).None?
    ensures Uncovered(s, close) == [s[0]] + Uncovered(s[1..], close)
  {
    var m := CoverMask(s, close);
    NoMatchShift(s, close, 0);
    assert !m[0];
    forall j | 0 <= j < |s| - 1
      ensures m[1..][j] == CoverMask(s[1..], close)[j]
    {
      NoMatchShift(s, close, j + 1);
    }
    assert m[1..] == CoverMask(s[1..], close);
  }

  /** Where a match starts, the pass keeps its closing character and goes on after it. */
  lemma KeptAfterMatch(s: string, close: char, len: nat)
    requires close != ',' && CommaMatch(s, close) == Some(len)
    ensures Uncovered(s, close) == [close] + Uncovered(s[len..], close)
  {
    var m := CoverMask(s, close);
    forall j | 0 <= j < len - 1
      ensures m[j]
    {
      MatchCovers(s, close, len, j);
    }
    SkipDropped(s, m, len - 1);
    MatchCovers(s, close, len, len - 1);
    var t, mt := s[len - 1..], m[len - 1..];
    assert t[0] == close && !mt[0];
    assert t[1..] == s[len..] && mt[1..] == m[len..];
    forall j | 0 <= j < |s| - len
      ensures m[len..][j] == CoverMask(s[len..], close)[j]
    {
      MatchShift(s, close, len, j + len);
    }
    assert m[len..] == CoverMask(s[len..], close);
  }

  /**
   * One pass deletes exactly the commas and white space of the matches of
   * `,\s*close` and keeps every other character, in order.
   */
  lemma {:induction false} StripKeepsUncovered(s: string, close: char)
    requires close != ','
    ensures StripBefore(s, close) == Uncovered(s, close)
    decreases |s|
  {
    if s != [] {
      match CommaMatch(s, close)
      case Some(len) =>
        StripKeepsUncovered(s[len..], close);
        KeptAfterMatch(s, close, len);
      case None =>
        StripKeepsUncovered(s[1..], close);
        KeptAfterNoMatch(s, close);
    }
  }

  /**
   * The clean-up deletes exactly the commas (and the white space after them)
   * that stand before a `}`, then exactly those that stand before a `]` in
   * what is left; every other character is kept, in order.
   */
  lemma StripTrailingKeepsUncovered(literal: string)
    ensures StripTrailingCommas(literal) == Uncovered(Uncovered(literal, '}'), ']')
  {
    StripKeepsUncovered(literal, '}');
    StripKeepsUncovered(StripBefore(literal, '}'), ']');
  }

  // ---------------------------------------------------------------------------
  // Examples

  /** Text without commas passes through a pass unchanged. */
  lemma {:induction false} NoCommaPrefix(p: string, s: string, close: char)
    requires ',' !in p
    ensures StripBefore(p + s, close) == p + StripBefore(s, close)
    decreases |p|
  {
    if p == [] {
      assert p + s == s;
    } else {
      var x := p + s;
      assert x[0] == p[0] && x[1..] == p[1..] + s;
      assert CommaMatch(x, close).None?;
      NoCommaPrefix(p[1..], s, close);
    }
  }

  /** A comma before a bracket is kept by the brace pass. */
  lemma CommaBracketKept()
    ensures StripBefore(",]", '}') == ",]"
  {
    assert CommaMatch(",]", '}').None?;
    assert ",]"[1..] == "]";
    assert StripBefore("]", '}') == "]";
  }

  /** A comma before a brace is removed by the brace pass. */
  lemma CommaBraceRemoved()
    ensures StripBefore(",},]", '}') == "}" + ",]"
  {
    assert CommaMatch(",},]", '}') == Some(2);
    assert ",},]"[2..] == ",]";
    CommaBracketKept();
  }

  /** The first pass removes the comma before the brace and keeps the one before the bracket. */
  lemma StripExampleBraces()
    ensures StripBefore("[{\"id\":1,},]", '}') == "[{\"id\":1}" + ",]"
  {
    var head := "[{\"id\":1";
    CommaBraceRemoved();
    assert "[{\"id\":1,},]" == head + ",},]";
    NoCommaPrefix(head, ",},]", '}');
    assert head + ("}" + ",]") == "[{\"id\":1}" + ",]";
  }

  /** The second pass removes the comma before the bracket. */
  lemma StripExampleBrackets()
    ensures StripBefore("[{\"id\":1}" + ",]", ']') == "[{\"id\":1}]"
  {
    assert StripBefore(",]", ']') == "]";
    NoCommaPrefix("[{\"id\":1}", ",]", ']');
  }

  /** A comma before a brace and one before a bracket are both removed. */
  lemma StripExample()
    ensures StripTrailingCommas("[{\"id\":1,},]") == "[{\"id\":1}]"
  {
    StripExampleBraces();
    StripExampleBrackets();
  }

  /** Two commas before a bracket leave one behind: a pass is not idempotent. */
  lemma DoubleCommaLeavesOne()
    ensures StripBefore(",,]", ']') == ",]"
    ensures StripBefore(",]", ']') == "]"
  {
  }
}
