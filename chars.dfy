/**
 * Character classes of the regular expressions in the tool, and the lengths of
 * the runs of characters they match.
 */
module Chars {

  /** `\w` restricted to ASCII: a letter, a digit or the underscore. */
  predicate IsWordChar(c: char)
  {
    ('a' <= c <= 'z') || ('A' <= c <= 'Z') || ('0' <= c <= '9') || c == '_'
  }

  /**
   * `\s` restricted to ASCII: space, tab, line feed, vertical tab, form feed,
   * carriage return, and the file, group, record and unit separators
   * U+001C to U+001F, which Python's `str.isspace` also counts.
   */
  predicate IsSpace(c: char)
  {
    c == ' ' || ('\t' <= c <= '\r') || ('\U{1C}' <= c <= '\U{1F}')
  }

  /** Every character of `w` is a word character. */
  predicate AllWord(w: string)
  {
    w == [] || (IsWordChar(w[0]) && AllWord(w[1..]))
  }

  /** Every character of `w` is white space. */
  predicate AllSpace(w: string)
  {
    w == [] || (IsSpace(w[0]) && AllSpace(w[1..]))
  }

  /** A string whose characters are each word characters is a word. */
  lemma {:induction false} EveryCharWord(w: string)
    requires forall i :: 0 <= i < |w| ==> IsWordChar(w[i])
    ensures AllWord(w)
  {
    if w != [] {
      assert forall i :: 0 <= i < |w[1..]| ==> w[1..][i] == w[i + 1];
      EveryCharWord(w[1..]);
    }
  }

  /** Each character of a word is a word character. */
  lemma {:induction false} WordChars(w: string)
    requires AllWord(w)
    ensures forall i :: 0 <= i < |w| ==> IsWordChar(w[i])
  {
    if w != [] {
      WordChars(w[1..]);
      assert forall i :: 1 <= i < |w| ==> w[i] == w[1..][i - 1];
    }
  }

  /** Length of the longest prefix of `s` made of word characters (what a greedy `\w*` takes). */
  function WordLen(s: string): (n: nat)
    ensures n <= |s|
    ensures n < |s| ==> !IsWordChar(s[n])
  {
    if s != [] && IsWordChar(s[0]) then 1 + WordLen(s[1..]) else 0
  }

  /** Length of the longest prefix of `s` made of white space (what a greedy `\s*` takes). */
  function SpaceLen(s: string): (n: nat)
    ensures n <= |s|
    ensures n < |s| ==> !IsSpace(s[n])
  {
    if s != [] && IsSpace(s[0]) then 1 + SpaceLen(s[1..]) else 0
  }

  /** The prefix measured by WordLen is made of word characters. */
  lemma {:induction false} WordRunIsWord(s: string)
    ensures AllWord(s[..WordLen(s)])
  {
    if s != [] && IsWordChar(s[0]) {
      WordRunIsWord(s[1..]);
      assert s[..WordLen(s)][1..] == s[1..][..WordLen(s[1..])];
    }
  }

  /** The prefix measured by SpaceLen is made of white space. */
  lemma {:induction false} SpaceRunIsSpace(s: string)
    ensures AllSpace(s[..SpaceLen(s)])
  {
    if s != [] && IsSpace(s[0]) {
      SpaceRunIsSpace(s[1..]);
      assert s[..SpaceLen(s)][1..] == s[1..][..SpaceLen(s[1..])];
    }
  }

  /** A run of word characters in front of `u` adds exactly its length to the word run. */
  lemma {:induction false} WordLenAppend(w: string, u: string)
    requires AllWord(w)
    ensures WordLen(w + u) == |w| + WordLen(u)
  {
    if w != [] {
      assert (w + u)[0] == w[0];
      assert (w + u)[1..] == w[1..] + u;
      WordLenAppend(w[1..], u);
    } else {
      assert w + u == u;
    }
  }

  /** A run of white space in front of `u` adds exactly its length to the space run. */
  lemma {:induction false} SpaceLenAppend(w: string, u: string)
    requires AllSpace(w)
    ensures SpaceLen(w + u) == |w| + SpaceLen(u)
  {
    if w != [] {
      assert (w + u)[0] == w[0];
      assert (w + u)[1..] == w[1..] + u;
      SpaceLenAppend(w[1..], u);
    } else {
      assert w + u == u;
    }
  }

  // ---------------------------------------------------------------------------
  // The same runs, measured by position in a whole text

  /** The position where the run of word characters starting at `i` in `t` ends. */
  function WordEnd(t: string, i: nat): (j: nat)
    requires i <= |t|
    ensures i <= j <= |t|
    ensures j < |t| ==> !IsWordChar(t[j])
    decreases |t| - i
  {
    if i < |t| && IsWordChar(t[i]) then WordEnd(t, i + 1) else i
  }

  /** The position where the run of white space starting at `i` in `t` ends. */
  function SpaceEnd(t: string, i: nat): (j: nat)
    requires i <= |t|
    ensures i <= j <= |t|
    ensures j < |t| ==> !IsSpace(t[j])
    decreases |t| - i
  {
    if i < |t| && IsSpace(t[i]) then SpaceEnd(t, i + 1) else i
  }

  /** The run measured by WordEnd is made of word characters. */
  lemma {:induction false} WordEndRun(t: string, i: nat)
    requires i <= |t|
    ensures AllWord(t[i..WordEnd(t, i)])
    decreases |t| - i
  {
    if i < |t| && IsWordChar(t[i]) {
      WordEndRun(t, i + 1);
      assert t[i..WordEnd(t, i)][1..] == t[i + 1..WordEnd(t, i)];
    }
  }

  /** The run measured by SpaceEnd is made of white space. */
  lemma {:induction false} SpaceEndRun(t: string, i: nat)
    requires i <= |t|
    ensures AllSpace(t[i..SpaceEnd(t, i)])
    decreases |t| - i
  {
    if i < |t| && IsSpace(t[i]) {
      SpaceEndRun(t, i + 1);
      assert t[i..SpaceEnd(t, i)][1..] == t[i + 1..SpaceEnd(t, i)];
    }
  }

  /** A word standing between `i` and `j`, with no word character at `j`, is the whole run. */
  lemma {:induction false} WordEndOf(t: string, i: nat, j: nat)
    requires i <= j <= |t| && AllWord(t[i..j]) && (j < |t| ==> !IsWordChar(t[j]))
    ensures WordEnd(t, i) == j
    decreases j - i
  {
    if i < j {
      assert t[i..j][0] == t[i] && t[i..j][1..] == t[i + 1..j];
      WordEndOf(t, i + 1, j);
    }
  }

  /** White space standing between `i` and `j`, with none at `j`, is the whole run. */
  lemma {:induction false} SpaceEndOf(t: string, i: nat, j: nat)
    requires i <= j <= |t| && AllSpace(t[i..j]) && (j < |t| ==> !IsSpace(t[j]))
    ensures SpaceEnd(t, i) == j
    decreases j - i
  {
    if i < j {
      assert t[i..j][0] == t[i] && t[i..j][1..] == t[i + 1..j];
      SpaceEndOf(t, i + 1, j);
    }
  }
}
