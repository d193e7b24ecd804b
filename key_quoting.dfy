/**
 * Step 1 of the extractor: the substitution that puts double quotes around the
 * reserved keys `id`, `filename`, `name`, `x`, `y`, `z` when they stand as a
 * whole word followed by optional white space and a colon.
 *
 * The regular expression is `\b(id|filename|name|x|y|z)\b\s*:`, applied with a
 * left-to-right, non-overlapping substitution over the raw text. Every key is a
 * word, so the leading `\b` holds exactly when the character before the match
 * position (in the ORIGINAL text) is not a word character, and the trailing `\b`
 * holds exactly when the key is the whole run of word characters starting there.
 */
module KeyQuoting {
  import opened Wrappers
  import opened Chars
  import opened SeqFacts

  /** The keys that the substitution quotes. */
  predicate IsReservedKey(w: string)
  {
    w == "id" || w == "filename" || w == "name" || w == "x" || w == "y" || w == "z"
  }

  /** The reserved keys, written out, are words. */
  lemma IdIsWord()
    ensures AllWord("id")
  {
    EveryCharWord("id");
  }

  lemma FilenameIsWord()
    ensures AllWord("filename")
  {
    EveryCharWord("filename");
  }

  lemma NameIsWord()
    ensures AllWord("name")
  {
    EveryCharWord("name");
  }

  lemma LetterIsWord(k: string)
    requires k == "x" || k == "y" || k == "z"
    ensures AllWord(k)
  {
    assert |k| == 1 && IsWordChar(k[0]);
    EveryCharWord(k);
  }

  /** Every reserved key is a non-empty word. */
  lemma ReservedKeysAreWords(k: string)
    requires IsReservedKey(k)
    ensures |k| > 0 && AllWord(k)
  {
    IdIsWord();
    FilenameIsWord();
    NameIsWord();
    if k == "x" || k == "y" || k == "z" {
      LetterIsWord(k);
    }
  }

  /**
   * The length of the match of the key pattern at the start of `s`, where
   * `afterNonWord` tells whether the character before `s` is a non-word character
   * (or `s` starts the text).
   */
  function KeyMatch(s: string, afterNonWord: bool): (r: Option<nat>)
    ensures r.Some? ==> afterNonWord && 0 < WordLen(s) < r.value <= |s|
  {
    var n := WordLen(s);
    var m := n + SpaceLen(s[n..]);
    if afterNonWord && IsReservedKey(s[..n]) && m < |s| && s[m] == ':' then Some(m + 1) else None
  }

  /** The substitution over `s`, given whether the character before `s` is a non-word character. */
  function QuoteFrom(s: string, afterNonWord: bool): string
    decreases |s|
  {
    if s == [] then []
    else match KeyMatch(s, afterNonWord)
      case Some(len) => "\"" + s[..WordLen(s)] + "\":" + QuoteFrom(s[len..], true)
      case None => [s[0]] + QuoteFrom(s[1..], !IsWordChar(s[0]))
  }

  /** The key-quoting substitution over a whole document. */
  function QuoteKeys(s: string): string
  {
    QuoteFrom(s, true)
  }

  /** The key pattern matches where its four conditions hold. */
  lemma KeyMatchAt(s: string, n: nat, m: nat)
    requires n == WordLen(s) && IsReservedKey(s[..n])
    requires m == n + SpaceLen(s[n..]) && m < |s| && s[m] == ':'
    ensures KeyMatch(s, true) == Some(m + 1)
  {
  }

  /** Where the key pattern matches, its four conditions hold. */
  lemma KeyMatchFacts(s: string, b: bool, len: nat)
    requires KeyMatch(s, b) == Some(len)
    ensures b && IsReservedKey(s[..WordLen(s)])
    ensures len - 1 == WordLen(s) + SpaceLen(s[WordLen(s)..]) && s[len - 1] == ':'
  {
  }

  /** Where a match starts, the key is quoted and the rest is quoted as coming after a non-word character. */
  lemma QuoteAtMatch(s: string, b: bool, len: nat)
    requires KeyMatch(s, b) == Some(len)
    ensures QuoteFrom(s, b) == "\"" + s[..WordLen(s)] + "\":" + QuoteFrom(s[len..], true)
  {
  }

  /** Equal texts are quoted alike. */
  lemma SameQuote(x: string, y: string, b: bool)
    requires x == y
    ensures QuoteFrom(x, b) == QuoteFrom(y, b)
  {
  }

  // ---------------------------------------------------------------------------
  // Copying runs that cannot start a match

  /** No match starts at a character that is not a word character. */
  lemma NoMatchAtNonWord(s: string, b: bool)
    requires s == [] || !IsWordChar(s[0])
    ensures KeyMatch(s, b).None?
  {
    assert WordLen(s) == 0;
    assert s[..0] == "";
  }

  /** Where no match starts, the first character is copied. */
  lemma CopyFirst(s: string, b: bool)
    requires s != [] && KeyMatch(s, b).None?
    ensures QuoteFrom(s, b) == [s[0]] + QuoteFrom(s[1..], !IsWordChar(s[0]))
  {
  }

  /** A text with no match at its start copies its leading word run unchanged. */
  lemma {:induction false} CopyWordRun(s: string, b: bool)
    requires KeyMatch(s, b).None?
    ensures QuoteFrom(s, b)
         == s[..WordLen(s)] + QuoteFrom(s[WordLen(s)..], if WordLen(s) > 0 then false else b)
  {
    var n := WordLen(s);
    if n > 0 {
      var t := s[1..];
      CopyFirst(s, b);
      assert WordLen(t) == n - 1;
      assert KeyMatch(t, false).None?;
      CopyWordRun(t, false);
      ConsSlices(s, n, QuoteFrom(s[n..], false));
    } else {
      EmptyPrefix(s, QuoteFrom(s, b));
    }
  }

  /** A leading run of white space never starts a match and is copied unchanged. */
  lemma {:induction false} CopySpaceRun(s: string, b: bool, n: nat)
    requires n == SpaceLen(s) && n > 0
    ensures QuoteFrom(s, b) == s[..n] + QuoteFrom(s[n..], true)
  {
    var t := s[1..];
    NoMatchAtNonWord(s, b);
    CopyFirst(s, b);
    assert SpaceLen(t) == n - 1;
    if n > 1 {
      CopySpaceRun(t, true, n - 1);
      ConsSlices(s, n, QuoteFrom(s[n..], true));
    } else {
      assert s[..1] == [s[0]];
    }
  }

  /** The first output character is the first input character, or the opening quote of a rewritten key. */
  lemma QuoteFromHead(s: string, b: bool)
    requires s != []
    ensures QuoteFrom(s, b) != []
    ensures QuoteFrom(s, b)[0] == s[0] || (QuoteFrom(s, b)[0] == '"' && IsWordChar(s[0]))
  {
    if KeyMatch(s, b).None? {
      CopyFirst(s, b);
    }
  }

  /** A non-word character in front of `r` is copied, and `r` is quoted as coming after a non-word character. */
  lemma CopyNonWord(c: char, r: string, b: bool)
    requires !IsWordChar(c)
    ensures QuoteFrom([c] + r, b) == [c] + QuoteFrom(r, true)
  {
    var s := [c] + r;
    HeadTail(c, r);
    NoMatchAtNonWord(s, b);
    CopyFirst(s, b);
  }

  // ---------------------------------------------------------------------------
  // Idempotence

  /** The opening quote of a rewritten key is neither white space, nor a word character, nor a colon. */
  lemma QuoteCharClass()
    ensures !IsSpace('"') && !IsWordChar('"') && '"' != ':'
  {
  }

  /** The match test reads only the word run, the space run after it and the character after that. */
  lemma KeyMatchSameShape(s: string, out: string, b: bool, n: nat, m: nat)
    requires WordLen(s) == n && WordLen(out) == n
    requires out[..n] == s[..n]
    requires m == n + SpaceLen(s[n..]) && m == n + SpaceLen(out[n..])
    requires m < |out| <==> m < |s|
    requires m < |s| ==> (out[m] == ':' <==> s[m] == ':')
    ensures KeyMatch(out, b) == KeyMatch(s, b)
  {
    assert IsReservedKey(out[..n]) <==> IsReservedKey(s[..n]);
    match KeyMatch(s, b)
    case Some(len) =>
      KeyMatchFacts(s, b, len);
      KeyMatchAt(out, n, m);
    case None =>
      if KeyMatch(out, b).Some? {
        KeyMatchFacts(out, b, KeyMatch(out, b).value);
        KeyMatchAt(s, n, m);
      }
  }

  /** The character after the runs of such an output is neither white space nor, right after the word, a word character. */
  lemma SameShapeHead(s: string, q: string, n: nat, m: nat)
    requires n == WordLen(s) && m == n + SpaceLen(s[n..])
    requires m == |s| <==> q == []
    requires q != [] ==> q[0] == s[m] || (q[0] == '"' && IsWordChar(s[m]))
    ensures q != [] ==> !IsSpace(q[0]) && (q[0] == ':' <==> s[m] == ':') && (m == n ==> !IsWordChar(q[0]))
  {
    if q != [] {
      QuoteCharClass();
      SuffixSlices(s, n, m - n);
      assert !IsSpace(s[m]);
      assert m == n ==> !IsWordChar(s[m]);
    }
  }

  /**
   * An output that agrees with the input on the word run and the space run,
   * and whose next character is the input's or the opening quote of a key
   * rewritten where the input has a word, has the same runs and the same
   * character after them.
   */
  lemma SameShape(s: string, q: string, n: nat, m: nat, out: string)
    requires n == WordLen(s) && m == n + SpaceLen(s[n..])
    requires m == |s| <==> q == []
    requires q != [] ==> q[0] == s[m] || (q[0] == '"' && IsWordChar(s[m]))
    requires out == s[..n] + (s[n..m] + q)
    ensures WordLen(out) == n && out[..n] == s[..n]
    ensures m == n + SpaceLen(out[n..])
    ensures m < |out| <==> m < |s|
    ensures m < |s| ==> (out[m] == ':' <==> s[m] == ':')
  {
    var mid := s[n..m];
    MatchSpace(s, n, m);
    SameShapeHead(s, q, n, m);
    RunAfterWord(mid, q);
    WordRunIsWord(s);
    WordLenAppend(s[..n], mid + q);
    ThreeParts(s[..n], mid, q, out);
    if q != [] {
      assert out[m] == q[0];
    }
  }

  /** White space followed by text that starts with neither white space nor, after no space, a word character. */
  lemma RunAfterWord(mid: string, q: string)
    requires AllSpace(mid) && (q != [] ==> !IsSpace(q[0]))
    requires mid == [] && q != [] ==> !IsWordChar(q[0])
    ensures WordLen(mid + q) == 0 && SpaceLen(mid + q) == |mid|
  {
    if mid != [] {
      assert (mid + q)[0] == mid[0];
    } else {
      assert mid + q == q;
    }
    assert SpaceLen(q) == 0;
    SpaceLenAppend(mid, q);
  }

  /** A leading run of white space of a suffix is copied unchanged. */
  lemma CopySpaceRunAt(s: string, n: nat, m: nat, b1: bool, b2: bool)
    requires n <= |s| && m == n + SpaceLen(s[n..])
    requires b2 == if m > n then true else b1
    ensures QuoteFrom(s[n..], b1) == s[n..m] + QuoteFrom(s[m..], b2)
  {
    if m == n {
      assert s[n..m] == [];
    } else {
      CopySpaceRunSome(s, n, m, b1);
    }
  }

  /** A non-empty leading run of white space of a suffix is copied, and what follows is quoted as coming after a non-word character. */
  lemma CopySpaceRunSome(s: string, n: nat, m: nat, b1: bool)
    requires n <= |s| && n < m == n + SpaceLen(s[n..])
    ensures QuoteFrom(s[n..], b1) == s[n..m] + QuoteFrom(s[m..], true)
  {
    var t := s[n..];
    CopySpaceRun(t, b1, m - n);
    SuffixSlicesTo(s, n, m);
    SameQuote(t[m - n..], s[m..], true);
    assert QuoteFrom(t, b1) == t[..m - n] + QuoteFrom(t[m - n..], true);
    assert t[..m - n] == s[n..m];
    assert QuoteFrom(t[m - n..], true) == QuoteFrom(s[m..], true);
    Link(QuoteFrom(t, b1), t[..m - n], QuoteFrom(t[m - n..], true), s[n..m], QuoteFrom(s[m..], true));
  }

  /** Replacing both parts of a concatenation by equal ones. */
  lemma Link(x: string, a: string, q: string, a2: string, q2: string)
    requires x == a + q && a == a2 && q == q2
    ensures x == a2 + q2
  {
  }

  /** Where no match starts, the output begins with the word run and the space run, copied. */
  lemma NoMatchPrefix(s: string, b: bool, n: nat, m: nat, b2: bool)
    requires KeyMatch(s, b).None?
    requires n == WordLen(s) && m == n + SpaceLen(s[n..])
    requires b2 == if m > n then true else if n > 0 then false else b
    ensures QuoteFrom(s, b) == s[..n] + (s[n..m] + QuoteFrom(s[m..], b2))
  {
    var b1 := if n > 0 then false else b;
    CopyWordRun(s, b);
    CopySpaceRunAt(s, n, m, b1, b2);
  }

  /** Where the key pattern does not match, it does not match the output either. */
  lemma NoMatchKept(s: string, b: bool)
    requires s != [] && KeyMatch(s, b).None?
    ensures KeyMatch(QuoteFrom(s, b), b).None?
  {
    var n := WordLen(s);
    var m := n + SpaceLen(s[n..]);
    var b2 := if m > n then true else if n > 0 then false else b;
    var q := QuoteFrom(s[m..], b2);
    NoMatchPrefix(s, b, n, m, b2);
    if m < |s| {
      QuoteFromHead(s[m..], b2);
    }
    SameShape(s, q, n, m, QuoteFrom(s, b));
    KeyMatchSameShape(s, QuoteFrom(s, b), b, n, m);
  }

  /** A reserved key followed by a quote does not match. */
  lemma QuotedKeyNoMatch(k: string, tail: string)
    requires IsReservedKey(k) && tail != [] && tail[0] == '"'
    ensures KeyMatch(k + tail, true).None?
    ensures WordLen(k + tail) == |k| && (k + tail)[..|k|] == k && (k + tail)[|k|..] == tail
  {
    ReservedKeysAreWords(k);
    QuoteCharClass();
    WordLenAppend(k, tail);
    assert WordLen(tail) == 0;
    AppendSlices(k, tail);
    assert SpaceLen(tail) == 0;
  }

  /** How a quoted key and the text after it are put together. */
  lemma QuotedShape(k: string, r: string)
    ensures "\"" + k + "\":" + r == ['"'] + (k + ("\":" + r))
    ensures "\":" + r == ['"'] + ([':'] + r)
  {
  }

  /** A reserved key followed by a quote is copied, and what follows it is quoted as coming after a word character. */
  lemma KeyThenQuote(k: string, tail: string)
    requires IsReservedKey(k) && tail != [] && tail[0] == '"'
    ensures QuoteFrom(k + tail, true) == k + QuoteFrom(tail, false)
  {
    QuotedKeyNoMatch(k, tail);
    CopyWordRun(k + tail, true);
  }

  /** The closing quote and colon of a quoted key are copied. */
  lemma QuoteThenColon(r: string)
    ensures QuoteFrom("\":" + r, false) == "\":" + QuoteFrom(r, true)
  {
    QuotedShape([], r);
    QuotedShape([], QuoteFrom(r, true));
    QuoteCharClass();
    CopyNonWord('"', [':'] + r, false);
    CopyNonWord(':', r, true);
  }

  /** A key that is already quoted no longer matches: the text is left as it is. */
  lemma QuotedKeyUnchanged(k: string, r: string, b: bool)
    requires IsReservedKey(k)
    ensures QuoteFrom("\"" + k + "\":" + r, b) == "\"" + k + "\":" + QuoteFrom(r, true)
  {
    var y := k + ("\":" + r);
    QuotedShape(k, r);
    QuotedShape(k, QuoteFrom(r, true));
    QuoteCharClass();
    CopyNonWord('"', y, b);
    KeyThenQuote(k, "\":" + r);
    QuoteThenColon(r);
  }

  /** Idempotence, whatever the character before the text. */
  lemma {:induction false} QuoteFromIdempotent(s: string, b: bool)
    ensures QuoteFrom(QuoteFrom(s, b), b) == QuoteFrom(s, b)
    decreases |s|
  {
    if s != [] {
      match KeyMatch(s, b)
      case Some(len) =>
        var k := s[..WordLen(s)];
        var r := QuoteFrom(s[len..], true);
        assert QuoteFrom(s, b) == "\"" + k + "\":" + r;
        QuoteFromIdempotent(s[len..], true);
        QuotedKeyUnchanged(k, r, b);
      case None =>
        var r := QuoteFrom(s[1..], !IsWordChar(s[0]));
        var out := QuoteFrom(s, b);
        CopyFirst(s, b);
        NoMatchKept(s, b);
        HeadTail(s[0], r);
        CopyFirst(out, b);
        QuoteFromIdempotent(s[1..], !IsWordChar(s[0]));
    }
  }

  /** Quoting the keys of an already quoted text changes nothing. */
  lemma QuoteKeysIdempotent(s: string)
    ensures QuoteKeys(QuoteKeys(s)) == QuoteKeys(s)
  {
    QuoteFromIdempotent(s, true);
  }

  // ---------------------------------------------------------------------------
  // What the substitution changes

  /** The runs of a word followed by white space, a colon and more text. */
  lemma KeyShapeWord(k: string, ws: string, r: string, x: string)
    requires AllWord(k) && AllSpace(ws) && x == k + (ws + ([':'] + r))
    ensures WordLen(x) == |k| && x[..|k|] == k
  {
    var tail := ws + ([':'] + r);
    RunAfterWord(ws, [':'] + r);
    WordLenAppend(k, tail);
    AppendSlices(k, tail);
  }

  lemma KeyShapeSpace(k: string, ws: string, r: string, x: string)
    requires AllSpace(ws) && x == k + (ws + ([':'] + r))
    ensures SpaceLen(x[|k|..]) == |ws|
  {
    var tail := ws + ([':'] + r);
    RunAfterWord(ws, [':'] + r);
    AppendSlices(k, tail);
  }

  lemma KeyShapeColon(k: string, ws: string, r: string, x: string)
    requires x == k + (ws + ([':'] + r))
    ensures |k| + |ws| < |x| && x[|k| + |ws|] == ':' && x[|k| + |ws| + 1..] == r
  {
    ThreeParts(k, ws, [':'] + r, x);
    var y := x[|k| + |ws|..];
    assert y[0] == ':' && y[1..] == r by {
      HeadTail(':', r);
    }
    assert x[|k| + |ws|] == y[0];
    assert x[|k| + |ws| + 1..] == y[1..];
  }

  /** A reserved key followed by white space and a colon matches, up to and including the colon. */
  lemma KeyShape(k: string, ws: string, r: string, x: string)
    requires IsReservedKey(k) && AllSpace(ws) && x == k + (ws + ([':'] + r))
    ensures KeyMatch(x, true) == Some(|k| + |ws| + 1) && x[..WordLen(x)] == k && x[|k| + |ws| + 1..] == r
  {
    ReservedKeysAreWords(k);
    KeyShapeWord(k, ws, r, x);
    KeyShapeSpace(k, ws, r, x);
    KeyShapeColon(k, ws, r, x);
    assert IsReservedKey(x[..|k|]);
    KeyMatchAt(x, |k|, |k| + |ws|);
  }

  /**
   * A reserved key standing as a whole word after a non-word character and followed by
   * optional white space and a colon becomes `"key":`; the white space is dropped.
   */
  lemma KeyRewritten(k: string, ws: string, r: string)
    requires IsReservedKey(k) && AllSpace(ws)
    ensures QuoteFrom(k + ws + ":" + r, true) == "\"" + k + "\":" + QuoteFrom(r, true)
  {
    var x := k + (ws + ([':'] + r));
    assert k + ws + ":" + r == x by {
      Assoc(k + ws, ":", r);
      Assoc(k, ws, ":" + r);
    }
    var len := |k| + |ws| + 1;
    KeyShape(k, ws, r, x);
    QuoteAtMatch(x, true, len);
    SameQuote(x[len..], r, true);
    SameQuote(k + ws + ":" + r, x, true);
  }

  /** A word that is not a reserved key is copied, and what follows it is quoted as coming after a word character. */
  lemma PlainWordCopied(w: string, r: string, b: bool)
    requires w != [] && AllWord(w) && !IsReservedKey(w)
    requires r == [] || !IsWordChar(r[0])
    ensures QuoteFrom(w + r, b) == w + QuoteFrom(r, false)
  {
    WordLenAppend(w, r);
    AppendSlices(w, r);
    assert KeyMatch(w + r, b).None?;
    CopyWordRun(w + r, b);
  }

  /**
   * A reserved key that is not followed by optional white space and a colon
   * (as in `id = 1`, `name,` or `x]`), or that does not stand after a non-word
   * character, is copied unchanged like any other word.
   */
  lemma ReservedNoColonCopied(k: string, r: string, b: bool)
    requires IsReservedKey(k)
    requires r == [] || !IsWordChar(r[0])
    requires SpaceLen(r) == |r| || r[SpaceLen(r)] != ':'
    ensures QuoteFrom(k + r, b) == k + QuoteFrom(r, false)
    ensures QuoteFrom(k + r, b) == k + r[..SpaceLen(r)] + QuoteFrom(r[SpaceLen(r)..], SpaceLen(r) > 0)
  {
    ReservedKeyCopied(k, r, b);
    LeadingSpaceCopied(r);
    Assoc(k, r[..SpaceLen(r)], QuoteFrom(r[SpaceLen(r)..], SpaceLen(r) > 0));
  }

  /** The reserved key itself is copied when no colon follows its white space. */
  lemma ReservedKeyCopied(k: string, r: string, b: bool)
    requires IsReservedKey(k)
    requires r == [] || !IsWordChar(r[0])
    requires SpaceLen(r) == |r| || r[SpaceLen(r)] != ':'
    ensures QuoteFrom(k + r, b) == k + QuoteFrom(r, false)
  {
    ReservedKeysAreWords(k);
    WordLenAppend(k, r);
    AppendSlices(k, r);
    assert KeyMatch(k + r, b).None?;
    CopyWordRun(k + r, b);
  }

  /** The leading white-space run after a word is copied unchanged. */
  lemma LeadingSpaceCopied(r: string)
    ensures QuoteFrom(r, false) == r[..SpaceLen(r)] + QuoteFrom(r[SpaceLen(r)..], SpaceLen(r) > 0)
  {
    assert r[0..] == r;
    CopySpaceRunAt(r, 0, SpaceLen(r), false, SpaceLen(r) > 0);
  }

  /** The text with every double quote and every white-space character removed. */
  function Unquoted(s: string): string
  {
    if s == [] then []
    else (if s[0] == '"' || IsSpace(s[0]) then [] else [s[0]]) + Unquoted(s[1..])
  }

  lemma {:induction false} UnquotedAppend(a: string, b: string)
    ensures Unquoted(a + b) == Unquoted(a) + Unquoted(b)
  {
    if a == [] {
      assert a + b == b;
    } else {
      assert (a + b)[0] == a[0] && (a + b)[1..] == a[1..] + b;
      UnquotedAppend(a[1..], b);
    }
  }

  lemma {:induction false} UnquotedSpaces(ws: string)
    requires AllSpace(ws)
    ensures Unquoted(ws) == []
  {
    if ws != [] {
      UnquotedSpaces(ws[1..]);
    }
  }

  /** Equal texts agree once quotes and white space are removed. */
  lemma SameUnquoted(x: string, y: string)
    requires x == y
    ensures Unquoted(x) == Unquoted(y)
  {
  }

  lemma UnquotedCons(c: char, x: string)
    ensures Unquoted([c] + x) == (if c == '"' || IsSpace(c) then [] else [c]) + Unquoted(x)
  {
    HeadTail(c, x);
  }

  /** Removing quotes and white space from a quoted key leaves the key, the colon and the rest. */
  lemma UnquotedQuotedKey(k: string, out: string)
    ensures Unquoted("\"" + k + "\":" + out) == Unquoted(k) + ([':'] + Unquoted(out))
  {
    QuotedShape(k, out);
    QuoteCharClass();
    UnquotedCons('"', [':'] + out);
    UnquotedCons(':', out);
    UnquotedCons('"', k + ("\":" + out));
    UnquotedAppend(k, "\":" + out);
  }

  /** Removing quotes and white space from a key, white space, a colon and the rest. */
  lemma UnquotedBareKey(k: string, ws: string, rest: string)
    requires AllSpace(ws)
    ensures Unquoted(k + (ws + ([':'] + rest))) == Unquoted(k) + ([':'] + Unquoted(rest))
  {
    UnquotedAppend(k, ws + ([':'] + rest));
    UnquotedAppend(ws, [':'] + rest);
    UnquotedSpaces(ws);
    UnquotedCons(':', rest);
  }

  /** The two sides of a rewrite agree once quotes and white space are removed. */
  lemma UnquotedRewrite(k: string, ws: string, rest: string, out: string)
    requires AllSpace(ws) && Unquoted(out) == Unquoted(rest)
    ensures Unquoted("\"" + k + "\":" + out) == Unquoted(k + ws + ":" + rest)
  {
    UnquotedQuotedKey(k, out);
    assert k + ws + ":" + rest == k + (ws + ([':'] + rest));
    UnquotedBareKey(k, ws, rest);
  }

  /** The white space after the word run of a match. */
  lemma MatchSpace(s: string, n: nat, m: nat)
    requires n == WordLen(s) && m == n + SpaceLen(s[n..])
    ensures AllSpace(s[n..m])
  {
    SpaceRunIsSpace(s[n..]);
    SuffixSlices(s, n, m - n);
  }

  /** A sequence is its prefix, a middle part, one element and the rest. */
  lemma Pieces<T>(s: seq<T>, i: nat, l: nat)
    requires i < l <= |s|
    ensures s == s[..i] + s[i..l - 1] + [s[l - 1]] + s[l..]
  {
  }

  /** Where a match of length `len` starts, the text is the key, white space, a colon and the rest. */
  lemma MatchPieces(s: string, n: nat, len: nat)
    requires n < len <= |s| && s[len - 1] == ':'
    ensures s == s[..n] + s[n..len - 1] + ":" + s[len..]
  {
    Pieces(s, n, len);
    assert [s[len - 1]] == ":";
  }

  /** A rewritten key keeps the text, given that the rest keeps it. */
  lemma KeepsTextAtMatch(s: string, b: bool, len: nat)
    requires KeyMatch(s, b) == Some(len)
    requires Unquoted(QuoteFrom(s[len..], true)) == Unquoted(s[len..])
    ensures Unquoted(QuoteFrom(s, b)) == Unquoted(s)
  {
    var n := WordLen(s);
    KeyMatchFacts(s, b, len);
    MatchSpace(s, n, len - 1);
    MatchPieces(s, n, len);
    QuoteAtMatch(s, b, len);
    SameUnquoted(s, s[..n] + s[n..len - 1] + ":" + s[len..]);
    UnquotedRewrite(s[..n], s[n..len - 1], s[len..], QuoteFrom(s[len..], true));
  }

  /** A copied character keeps the text, given that the rest keeps it. */
  lemma KeepsTextCopy(s: string, b: bool)
    requires s != [] && KeyMatch(s, b).None?
    requires Unquoted(QuoteFrom(s[1..], !IsWordChar(s[0]))) == Unquoted(s[1..])
    ensures Unquoted(QuoteFrom(s, b)) == Unquoted(s)
  {
    CopyFirst(s, b);
    UnquotedAppend([s[0]], QuoteFrom(s[1..], !IsWordChar(s[0])));
    UnquotedAppend([s[0]], s[1..]);
    SameUnquoted(s, [s[0]] + s[1..]);
  }

  /** Quoting keys changes nothing but double quotes and white space. */
  lemma {:induction false} QuoteFromKeepsText(s: string, b: bool)
    ensures Unquoted(QuoteFrom(s, b)) == Unquoted(s)
    decreases |s|
  {
    if s != [] {
      match KeyMatch(s, b)
      case Some(len) =>
        QuoteFromKeepsText(s[len..], true);
        KeepsTextAtMatch(s, b, len);
      case None =>
        QuoteFromKeepsText(s[1..], !IsWordChar(s[0]));
        KeepsTextCopy(s, b);
    }
  }

  /** Removing double quotes and white space, the quoted text is the original text. */
  lemma QuoteKeysKeepsText(s: string)
    ensures Unquoted(QuoteKeys(s)) == Unquoted(s)
  {
    QuoteFromKeepsText(s, true);
  }
}
