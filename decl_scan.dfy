/**
 * Step 2 of the extractor: finding every `static NAME = [ ... ];` declaration
 * in the key-quoted text, with `findall` over the regular expression
 * `static\s+(\w+)\s*=\s*(\[[\s\S]*?\]);`.
 *
 * Each greedy run in the pattern is followed by something its class cannot
 * match (`\s+` by a word character, `\w+` by white space or `=`, `\s*` by `=`
 * or `[`), so backtracking never shortens a run and a match takes every run
 * whole. The lazy part stops at the first `];` after the opening bracket. The
 * pattern has no leading word boundary, so `static` may also be the tail of a
 * longer word.
 *
 * Positions are positions in the whole text `t`.
 */
module DeclScan {
  import opened Wrappers
  import opened Chars
  import opened SeqFacts

  /** A declaration found by the scanner: the list name and its literal, brackets included. */
  datatype Decl = Decl(name: string, literal: string)

  /** Where in the text a declaration was found: `t[start..end]` is the whole match. */
  datatype Span = Span(start: nat, end: nat, decl: Decl)

  /** `];` stands at position `q` of `t`. */
  predicate IsCloseAt(t: string, q: nat)
  {
    q + 1 < |t| && t[q] == ']' && t[q + 1] == ';'
  }

  /** No `];` stands anywhere inside `v`. */
  predicate NoClose(v: string)
  {
    forall q :: 0 <= q < |v| ==> !IsCloseAt(v, q)
  }

  /** The position of the first `];` at or after `i`, where the lazy `[\s\S]*?\];` stops. */
  function CloseFrom(t: string, i: nat): (r: Option<nat>)
    requires i <= |t|
    ensures r.Some? ==> i <= r.value && IsCloseAt(t, r.value)
    ensures r.Some? ==> forall q :: i <= q < r.value ==> !IsCloseAt(t, q)
    ensures r.None? ==> forall q :: i <= q < |t| ==> !IsCloseAt(t, q)
    decreases |t| - i
  {
    if i + 1 >= |t| then None
    else if IsCloseAt(t, i) then Some(i)
    else CloseFrom(t, i + 1)
  }

  /**
   * `\[[\s\S]*?\];` at position `e`: where the match ends and the literal,
   * which is the match without its semicolon.
   */
  function LiteralAt(t: string, e: nat): (r: Option<(nat, string)>)
    requires e <= |t|
    ensures r.Some? ==> e + 3 <= r.value.0 <= |t|
  {
    if e < |t| && t[e] == '[' then
      match CloseFrom(t, e + 1)
      case None => None
      case Some(f) => Some((f + 2, t[e..f + 1]))
    else None
  }

  /** `\s*=\s*` and then a literal, at position `c`. */
  function AssignAt(t: string, c: nat): (r: Option<(nat, string)>)
    requires c <= |t|
    ensures r.Some? ==> c + 4 <= r.value.0 <= |t|
  {
    var d := SpaceEnd(t, c);
    if d < |t| && t[d] == '=' then LiteralAt(t, SpaceEnd(t, d + 1)) else None
  }

  /** The declaration named `name` whose assignment the match `o` is. */
  function Named(o: Option<(nat, string)>, name: string): (r: Option<(nat, Decl)>)
    ensures r.Some? <==> o.Some?
    ensures r.Some? ==> r.value == (o.value.0, Decl(name, o.value.1))
  {
    match o
    case None => None
    case Some((end, lit)) => Some((end, Decl(name, lit)))
  }

  /** `(\w+)`, then the assignment, at position `b`. */
  function NameAt(t: string, b: nat): (r: Option<(nat, Decl)>)
    requires b <= |t|
    ensures r.Some? ==> b + 5 <= r.value.0 <= |t|
  {
    var c := WordEnd(t, b);
    if c == b then None else Named(AssignAt(t, c), t[b..c])
  }

  /** The whole pattern at position `p`: where the match ends, and the declaration. */
  function DeclAt(t: string, p: nat): (r: Option<(nat, Decl)>)
    requires p <= |t|
    ensures r.Some? ==> p + 12 <= r.value.0 <= |t|
  {
    if p + 6 <= |t| && t[p..p + 6] == "static" then
      var b := SpaceEnd(t, p + 6);
      if b == p + 6 then None else NameAt(t, b)
    else None
  }

  // ---------------------------------------------------------------------------
  // The shape of a declaration

  /** The text of a declaration made of the given pieces. */
  function DeclText(ws1: string, name: string, ws2: string, ws3: string, body: string): string
  {
    "static" + (ws1 + (name + (ws2 + ("=" + (ws3 + ("[" + (body + "];")))))))
  }

  /**
   * The pieces make a declaration the pattern matches whole: white space after
   * `static`, a name of word characters, optional white space around `=`, and
   * a literal whose body holds no `];`.
   */
  predicate Shaped(ws1: string, name: string, ws2: string, ws3: string, body: string)
  {
    ws1 != [] && AllSpace(ws1) && name != [] && AllWord(name) && AllSpace(ws2) && AllSpace(ws3) && NoClose(body)
  }

  /** CloseFrom finds `f` when `];` is at `f` and not before it. */
  lemma CloseFromUnique(t: string, i: nat, f: nat)
    requires i <= f && IsCloseAt(t, f) && forall q :: i <= q < f ==> !IsCloseAt(t, q)
    ensures CloseFrom(t, i) == Some(f)
  {
  }

  lemma LiteralComplete(t: string, e: nat, body: string)
    requires NoClose(body) && e + |body| + 3 <= |t|
    requires t[e] == '[' && t[e + 1..e + 1 + |body|] == body && t[e + 1 + |body|..e + 3 + |body|] == "];"
    ensures LiteralAt(t, e) == Some((e + |body| + 3, "[" + body + "]"))
  {
    var f := e + 1 + |body|;
    assert t[f] == ']' && t[f + 1] == ';';
    forall q | e + 1 <= q < f
      ensures !IsCloseAt(t, q)
    {
      if q + 1 < f {
        assert !IsCloseAt(body, q - e - 1);
        assert t[q] == body[q - e - 1] && t[q + 1] == body[q - e];
      } else {
        assert t[q + 1] == ']';
      }
    }
    CloseFromUnique(t, e + 1, f);
    JoinSlices(t, e, e + 1, f);
    JoinSlices(t, e, f, f + 1);
    assert t[e..e + 1] == "[" && t[f..f + 1] == "]";
  }

  lemma DeclComplete(t: string, p: nat, ws1: string, b: nat)
    requires ws1 != [] && AllSpace(ws1) && p + 6 + |ws1| == b < |t| && !IsSpace(t[b])
    requires t[p..p + 6] == "static" && t[p + 6..b] == ws1
    ensures DeclAt(t, p) == NameAt(t, b)
  {
    SpaceEndOf(t, p + 6, b);
  }

  /** Where the pieces of an assignment stand when the assignment stands at `d`. */
  lemma AssignLayout(t: string, d: nat, ws3: string, body: string, e: nat, f: nat)
    requires e == d + 1 + |ws3| && f == e + 1 + |body| && f + 2 <= |t|
    requires t[d..f + 2] == "=" + (ws3 + ("[" + (body + "];")))
    ensures t[d] == '=' && t[d + 1..e] == ws3 && t[e] == '[' && t[e + 1..f] == body && t[f..f + 2] == "];"
  {
    var d7 := body + "];";
    var d6 := "[" + d7;
    var d5 := ws3 + d6;
    SplitSlice(t, d, "=", d5);
    SplitSlice(t, d + 1, ws3, d6);
    SplitSlice(t, e, "[", d7);
    SplitSlice(t, e + 1, body, "];");
    assert t[d..d + 1] == "=" && t[e..e + 1] == "[";
    assert t[d] == t[d..d + 1][0];
    assert t[e] == t[e..e + 1][0];
  }

  /** Where the pieces of a declaration stand when the declaration stands at `p`. */
  lemma DeclLayout(t: string, p: nat, ws1: string, name: string, ws2: string, ws3: string, body: string,
                   b: nat, c: nat, d: nat, end: nat)
    requires b == p + 6 + |ws1| && c == b + |name| && d == c + |ws2| && end == p + |DeclText(ws1, name, ws2, ws3, body)|
    requires end <= |t| && t[p..end] == DeclText(ws1, name, ws2, ws3, body)
    ensures t[p..p + 6] == "static" && t[p + 6..b] == ws1 && t[b..c] == name && t[c..d] == ws2
    ensures t[d..end] == "=" + (ws3 + ("[" + (body + "];")))
  {
    var d4 := "=" + (ws3 + ("[" + (body + "];")));
    var d3 := ws2 + d4;
    var d2 := name + d3;
    var d1 := ws1 + d2;
    SplitSlice(t, p, "static", d1);
    SplitSlice(t, p + 6, ws1, d2);
    SplitSlice(t, b, name, d3);
    SplitSlice(t, c, ws2, d4);
  }

  /** The pattern at `p`, given where each of its runs ends. */
  lemma MatchFromRuns(t: string, p: nat, b: nat, c: nat, d: nat, e: nat, f: nat)
    requires p + 6 < b <= |t| && t[p..p + 6] == "static" && SpaceEnd(t, p + 6) == b
    requires b < c && WordEnd(t, b) == c
    requires SpaceEnd(t, c) == d && d < |t| && t[d] == '='
    requires SpaceEnd(t, d + 1) == e && e < |t| && t[e] == '['
    requires CloseFrom(t, e + 1) == Some(f)
    ensures DeclAt(t, p) == Some((f + 2, Decl(t[b..c], t[e..f + 1])))
  {
    assert LiteralAt(t, e) == Some((f + 2, t[e..f + 1]));
    assert AssignAt(t, c) == LiteralAt(t, e);
    assert NameAt(t, b) == Named(AssignAt(t, c), t[b..c]);
  }

  /** Where the runs of a declaration of the right shape end. */
  lemma ShapedRuns(t: string, p: nat, ws1: string, name: string, ws2: string, ws3: string, body: string,
                   b: nat, c: nat, d: nat, e: nat, f: nat)
    requires ws1 != [] && AllSpace(ws1) && name != [] && AllWord(name) && AllSpace(ws2) && AllSpace(ws3) && NoClose(body)
    requires b == p + 6 + |ws1| && c == b + |name| && d == c + |ws2| && e == d + 1 + |ws3| && f == e + 1 + |body|
    requires f + 2 <= |t| && t[p + 6..b] == ws1 && t[b..c] == name && t[c..d] == ws2
    requires t[d] == '=' && t[d + 1..e] == ws3 && t[e] == '[' && t[e + 1..f] == body && t[f..f + 2] == "];"
    ensures SpaceEnd(t, p + 6) == b && WordEnd(t, b) == c && SpaceEnd(t, c) == d && SpaceEnd(t, d + 1) == e
    ensures CloseFrom(t, e + 1) == Some(f) && t[e..f + 1] == "[" + body + "]"
  {
    assert t[b] == name[0];
    SpaceEndOf(t, p + 6, b);
    assert !IsWordChar(t[c]) by {
      if ws2 != [] {
        assert t[c] == ws2[0];
      }
    }
    WordEndOf(t, b, c);
    SpaceEndOf(t, c, d);
    SpaceEndOf(t, d + 1, e);
    LiteralComplete(t, e, body);
  }

  /** A declaration of the right shape is matched whole, with its own name and literal. */
  lemma ShapedMatches(t: string, p: nat, ws1: string, name: string, ws2: string, ws3: string, body: string)
    requires Shaped(ws1, name, ws2, ws3, body)
    requires p + |DeclText(ws1, name, ws2, ws3, body)| <= |t|
    requires t[p..p + |DeclText(ws1, name, ws2, ws3, body)|] == DeclText(ws1, name, ws2, ws3, body)
    ensures DeclAt(t, p) == Some((p + |DeclText(ws1, name, ws2, ws3, body)|, Decl(name, "[" + body + "]")))
  {
    var b := p + 6 + |ws1|;
    var c := b + |name|;
    var d := c + |ws2|;
    var e := d + 1 + |ws3|;
    var f := e + 1 + |body|;
    DeclTextLength(ws1, name, ws2, ws3, body);
    ShapedLayout(t, p, ws1, name, ws2, ws3, body, b, c, d, e, f);
    MatchFromRuns(t, p, b, c, d, e, f);
  }

  /** Where the runs of a declaration of the right shape end, from its text. */
  lemma ShapedLayout(t: string, p: nat, ws1: string, name: string, ws2: string, ws3: string, body: string,
                     b: nat, c: nat, d: nat, e: nat, f: nat)
    requires Shaped(ws1, name, ws2, ws3, body)
    requires b == p + 6 + |ws1| && c == b + |name| && d == c + |ws2| && e == d + 1 + |ws3| && f == e + 1 + |body|
    requires f + 2 <= |t| && t[p..f + 2] == DeclText(ws1, name, ws2, ws3, body)
    ensures t[p..p + 6] == "static" && SpaceEnd(t, p + 6) == b && WordEnd(t, b) == c
    ensures SpaceEnd(t, c) == d && t[d] == '=' && SpaceEnd(t, d + 1) == e && t[e] == '['
    ensures CloseFrom(t, e + 1) == Some(f) && t[e..f + 1] == "[" + body + "]" && t[b..c] == name
  {
    DeclLayout(t, p, ws1, name, ws2, ws3, body, b, c, d, f + 2);
    AssignLayout(t, d, ws3, body, e, f);
    ShapedRuns(t, p, ws1, name, ws2, ws3, body, b, c, d, e, f);
  }

  lemma DeclTextLength(ws1: string, name: string, ws2: string, ws3: string, body: string)
    ensures |DeclText(ws1, name, ws2, ws3, body)| == 10 + |ws1| + |name| + |ws2| + |ws3| + |body|
  {
  }

  // ---------------------------------------------------------------------------
  // What a match consists of

  lemma LiteralSound(t: string, e: nat)
    requires e <= |t| && LiteralAt(t, e).Some?
    ensures var (end, lit) := LiteralAt(t, e).value;
      t[e] == '[' && t[end - 2..end] == "];" && NoClose(t[e + 1..end - 2]) && lit == "[" + t[e + 1..end - 2] + "]"
  {
    var (end, lit) := LiteralAt(t, e).value;
    var f := end - 2;
    var body := t[e + 1..f];
    forall q | 0 <= q < |body|
      ensures !IsCloseAt(body, q)
    {
      assert !IsCloseAt(t, e + 1 + q);
    }
    JoinSlices(t, e, e + 1, f);
    JoinSlices(t, e, f, f + 1);
    assert t[e..e + 1] == "[" && t[f..f + 1] == "]";
  }

  lemma DeclAtUnfold(t: string, p: nat)
    requires p <= |t| && DeclAt(t, p).Some?
    ensures p + 6 <= |t| && t[p..p + 6] == "static" && p + 6 < SpaceEnd(t, p + 6)
    ensures DeclAt(t, p) == NameAt(t, SpaceEnd(t, p + 6))
  {
  }

  lemma NameAtUnfold(t: string, b: nat)
    requires b <= |t| && NameAt(t, b).Some?
    ensures b < WordEnd(t, b) && NameAt(t, b) == Named(AssignAt(t, WordEnd(t, b)), t[b..WordEnd(t, b)])
  {
  }

  lemma AssignAtUnfold(t: string, c: nat)
    requires c <= |t| && AssignAt(t, c).Some?
    ensures SpaceEnd(t, c) < |t| && t[SpaceEnd(t, c)] == '='
    ensures AssignAt(t, c) == LiteralAt(t, SpaceEnd(t, SpaceEnd(t, c) + 1))
  {
  }

  /** The text of an assignment, from the pieces of `t` it is made of. */
  lemma AssembleAssign(t: string, d: nat, e: nat, f: nat)
    requires d < e < f && f + 2 <= |t| && t[d] == '=' && t[e] == '[' && t[f..f + 2] == "];"
    ensures t[d..f + 2] == "=" + (t[d + 1..e] + ("[" + (t[e + 1..f] + "];")))
  {
    JoinSlices(t, e + 1, f, f + 2);
    JoinSlices(t, e, e + 1, f + 2);
    JoinSlices(t, d + 1, e, f + 2);
    JoinSlices(t, d, d + 1, f + 2);
    assert t[e..e + 1] == "[" && t[d..d + 1] == "=";
  }

  /** The text of a declaration, from the pieces of `t` it is made of. */
  lemma AssembleDecl(t: string, p: nat, b: nat, c: nat, d: nat, end: nat)
    requires p + 6 <= b <= c <= d <= end <= |t| && t[p..p + 6] == "static"
    ensures t[p..end] == "static" + (t[p + 6..b] + (t[b..c] + (t[c..d] + t[d..end])))
  {
    JoinSlices(t, c, d, end);
    JoinSlices(t, b, c, end);
    JoinSlices(t, p + 6, b, end);
    JoinSlices(t, p, p + 6, end);
  }

  /** The positions where the pieces of a match start. */
  lemma MatchParts(t: string, p: nat) returns (b: nat, c: nat, d: nat, e: nat)
    requires p <= |t| && DeclAt(t, p).Some?
    ensures p + 6 <= |t| && t[p..p + 6] == "static"
    ensures b == SpaceEnd(t, p + 6) && p + 6 < b && c == WordEnd(t, b) && b < c
    ensures d == SpaceEnd(t, c) && d < |t| && t[d] == '=' && e == SpaceEnd(t, d + 1)
    ensures LiteralAt(t, e) == Some((DeclAt(t, p).value.0, DeclAt(t, p).value.1.literal))
    ensures DeclAt(t, p).value.1.name == t[b..c]
  {
    DeclAtUnfold(t, p);
    b := SpaceEnd(t, p + 6);
    NameAtUnfold(t, b);
    c := WordEnd(t, b);
    AssignAtUnfold(t, c);
    d := SpaceEnd(t, c);
    e := SpaceEnd(t, d + 1);
  }

  /** Pieces found by the runs and the lazy literal make a declaration of the right shape. */
  lemma PartsShaped(t: string, p: nat, b: nat, c: nat, d: nat, e: nat, end: nat, lit: string)
    requires p + 6 <= |t| && t[p..p + 6] == "static"
    requires b == SpaceEnd(t, p + 6) && p + 6 < b && c == WordEnd(t, b) && b < c
    requires d == SpaceEnd(t, c) && d < |t| && t[d] == '=' && e == SpaceEnd(t, d + 1)
    requires LiteralAt(t, e) == Some((end, lit))
    ensures Shaped(t[p + 6..b], t[b..c], t[c..d], t[d + 1..e], t[e + 1..end - 2])
    ensures t[p..end] == DeclText(t[p + 6..b], t[b..c], t[c..d], t[d + 1..e], t[e + 1..end - 2])
    ensures lit == "[" + t[e + 1..end - 2] + "]"
  {
    LiteralSound(t, e);
    SpaceEndRun(t, p + 6);
    WordEndRun(t, b);
    SpaceEndRun(t, c);
    SpaceEndRun(t, d + 1);
    assert Shaped(t[p + 6..b], t[b..c], t[c..d], t[d + 1..e], t[e + 1..end - 2]);
    PartsText(t, p, b, c, d, e, end);
  }

  /** The pieces of a match, put back together, give its text. */
  lemma PartsText(t: string, p: nat, b: nat, c: nat, d: nat, e: nat, end: nat)
    requires p + 6 < b < c <= d < e < end - 2 && end <= |t| && t[p..p + 6] == "static"
    requires t[d] == '=' && t[e] == '[' && t[end - 2..end] == "];"
    ensures t[p..end] == DeclText(t[p + 6..b], t[b..c], t[c..d], t[d + 1..e], t[e + 1..end - 2])
  {
    AssembleAssign(t, d, e, end - 2);
    AssembleDecl(t, p, b, c, d, end);
  }

  /**
   * Every match is a declaration of the right shape: `static`, white space, a
   * name of word characters, `=` with optional white space around it, and a
   * literal from `[` to the first `];`, the semicolon not included.
   */
  lemma MatchIsShaped(t: string, p: nat)
    requires p <= |t| && DeclAt(t, p).Some?
    ensures var (end, d) := DeclAt(t, p).value;
      exists ws1, ws2, ws3, body :: Shaped(ws1, d.name, ws2, ws3, body)
        && t[p..end] == DeclText(ws1, d.name, ws2, ws3, body) && d.literal == "[" + body + "]"
  {
    var (end, decl) := DeclAt(t, p).value;
    var b, c, d, e := MatchParts(t, p);
    PartsShaped(t, p, b, c, d, e, end, decl.literal);
    var ws1, ws2, ws3, body := t[p + 6..b], t[c..d], t[d + 1..e], t[e + 1..end - 2];
    assert Shaped(ws1, decl.name, ws2, ws3, body);
  }

  // ---------------------------------------------------------------------------
  // The scan

  /**
   * `findall` from position `i` of `t`: a match is tried at each position; a
   * match found is recorded and the scan resumes at its end, otherwise it
   * resumes one position further on. The result lists matches left to right,
   * without overlap.
   */
  function ScanFrom(t: string, i: nat): (r: seq<Span>)
    requires i <= |t|
    ensures forall k :: 0 <= k < |r| ==>
      i <= r[k].start < r[k].end <= |t| && DeclAt(t, r[k].start) == Some((r[k].end, r[k].decl))
    ensures forall k :: 0 <= k < |r| - 1 ==> r[k].end <= r[k + 1].start
    decreases |t| - i
  {
    if i == |t| then []
    else match DeclAt(t, i)
      case Some((end, d)) => [Span(i, end, d)] + ScanFrom(t, end)
      case None => ScanFrom(t, i + 1)
  }

  /** Where the scan from `i` resumes after its `k`-th match (before the first when `k` is 0). */
  function Resume(spans: seq<Span>, i: nat, k: nat): nat
    requires k <= |spans|
  {
    if k == 0 then i else spans[k - 1].end
  }

  /** Where the scan's `k`-th match starts (the end of the text when there is none). */
  function NextStart(spans: seq<Span>, t: string, k: nat): nat
  {
    if k < |spans| then spans[k].start else |t|
  }

  /** No match starts at a position the scan from `i` passed over outside a match. */
  predicate MissesNothing(t: string, i: nat, r: seq<Span>)
  {
    forall k, p :: 0 <= k <= |r| && Resume(r, i, k) <= p < NextStart(r, t, k) && p <= |t| ==> DeclAt(t, p).None?
  }

  /** A match recorded at `i` keeps the property of the scan that follows it. */
  lemma MissesNothingAfterMatch(t: string, i: nat, s: Span, rest: seq<Span>)
    requires s.start == i && MissesNothing(t, s.end, rest)
    ensures MissesNothing(t, i, [s] + rest)
  {
    var r := [s] + rest;
    forall k, p | 0 <= k <= |r| && Resume(r, i, k) <= p < NextStart(r, t, k) && p <= |t|
      ensures DeclAt(t, p).None?
    {
      assert k > 0;
      assert Resume(r, i, k) == Resume(rest, s.end, k - 1);
      assert NextStart(r, t, k) == NextStart(rest, t, k - 1);
    }
  }

  /** A position without a match keeps the property of the scan that follows it. */
  lemma MissesNothingAfterSkip(t: string, i: nat, r: seq<Span>)
    requires i < |t| && DeclAt(t, i).None? && MissesNothing(t, i + 1, r)
    requires r != [] ==> i < r[0].start
    ensures MissesNothing(t, i, r)
  {
    forall k, p | 0 <= k <= |r| && Resume(r, i, k) <= p < NextStart(r, t, k) && p <= |t|
      ensures DeclAt(t, p).None?
    {
      if k == 0 && p > i {
        assert Resume(r, i + 1, 0) <= p;
      } else if k > 0 {
        assert Resume(r, i, k) == Resume(r, i + 1, k);
      }
    }
  }

  /**
   * No match was skipped: no match starts at a position the scan passed over
   * outside a match, before the first match, between two, or after the last.
   */
  lemma {:induction false} ScanMissesNothing(t: string, i: nat)
    requires i <= |t|
    ensures MissesNothing(t, i, ScanFrom(t, i))
    decreases |t| - i
  {
    if i < |t| {
      match DeclAt(t, i)
      case Some((end, d)) =>
        ScanMissesNothing(t, end);
        MissesNothingAfterMatch(t, i, Span(i, end, d), ScanFrom(t, end));
      case None =>
        ScanMissesNothing(t, i + 1);
        MissesNothingAfterSkip(t, i, ScanFrom(t, i + 1));
    }
  }

  /** The declarations of a run of matches, in order. */
  function Decls(spans: seq<Span>): (r: seq<Decl>)
    ensures |r| == |spans|
    ensures forall k :: 0 <= k < |r| ==> r[k] == spans[k].decl
  {
    seq(|spans|, k requires 0 <= k < |spans| => spans[k].decl)
  }

  /** The declarations found in `t`, left to right: the pairs `findall` returns. */
  function FindAll(t: string): (r: seq<Decl>)
    ensures |r| == |ScanFrom(t, 0)|
    ensures forall k :: 0 <= k < |r| ==> r[k] == ScanFrom(t, 0)[k].decl
  {
    Decls(ScanFrom(t, 0))
  }

  // ---------------------------------------------------------------------------
  // Walking a scan over a known text

  lemma DeclsCons(s: Span, rest: seq<Span>)
    ensures Decls([s] + rest) == [s.decl] + Decls(rest)
  {
  }

  /** A scan passes over positions where no match starts. */
  lemma {:induction false} ScanSkips(t: string, i: nat, q: nat)
    requires i <= q <= |t|
    requires forall p :: i <= p < q ==> DeclAt(t, p).None?
    ensures ScanFrom(t, i) == ScanFrom(t, q)
    decreases q - i
  {
    if i < q {
      ScanSkips(t, i + 1, q);
    }
  }

  /** A scan that reaches a match records it and resumes at its end. */
  lemma ScanTakes(t: string, i: nat, end: nat, d: Decl)
    requires i < |t| && DeclAt(t, i) == Some((end, d))
    ensures ScanFrom(t, i) == [Span(i, end, d)] + ScanFrom(t, end)
  {
  }

  /** No match starts at a character other than `s`. */
  lemma NoMatchAtOther(t: string, p: nat)
    requires p < |t| && t[p] != 's'
    ensures DeclAt(t, p).None?
  {
    if p + 6 <= |t| {
      assert t[p..p + 6][0] == t[p];
    }
  }

  /** A scan passes over a stretch of text that holds no `s`. */
  lemma ScanPassesOver(t: string, q: nat, e: nat)
    requires q <= e <= |t|
    requires forall p :: q <= p < e ==> t[p] != 's'
    ensures ScanFrom(t, q) == ScanFrom(t, e)
  {
    forall p | q <= p < e
      ensures DeclAt(t, p).None?
    {
      NoMatchAtOther(t, p);
    }
    ScanSkips(t, q, e);
  }

  /** A scan that meets a match after a stretch holding no `s` records it and resumes at its end. */
  lemma ScanReaches(t: string, q: nat, a: nat, e: nat, d: Decl)
    requires q <= a < |t| && DeclAt(t, a) == Some((e, d))
    requires forall p :: q <= p < a ==> t[p] != 's'
    ensures Decls(ScanFrom(t, q)) == [d] + Decls(ScanFrom(t, e))
  {
    ScanPassesOver(t, q, a);
    ScanTakes(t, a, e, d);
    DeclsCons(Span(a, e, d), ScanFrom(t, e));
  }

  /**
   * A scan that meets a match after a stretch holding no `s`, the match being
   * followed by a character other than `s`, records it and resumes after that
   * character.
   */
  lemma ScanLine(t: string, q: nat, a: nat, e: nat, next: nat, d: Decl)
    requires q <= a < e < |t| && next == e + 1 && DeclAt(t, a) == Some((e, d))
    requires forall p :: q <= p < a ==> t[p] != 's'
    requires t[e] != 's'
    ensures Decls(ScanFrom(t, q)) == [d] + Decls(ScanFrom(t, next))
  {
    ScanReaches(t, q, a, e, d);
    NoMatchAtOther(t, e);
    assert ScanFrom(t, e) == ScanFrom(t, next);
  }

  /**
   * A scan that meets a match after a stretch holding no `s`, the rest of the
   * text after the match holding no `a`, finds that match and nothing else.
   */
  lemma ScanLast(t: string, q: nat, a: nat, e: nat, d: Decl)
    requires q <= a < |t| && DeclAt(t, a) == Some((e, d))
    requires forall p :: q <= p < a ==> t[p] != 's'
    requires 'a' !in t[e..]
    ensures Decls(ScanFrom(t, q)) == [d]
  {
    ScanReaches(t, q, a, e, d);
    NoMatchInSuffix(t, e);
    ScanSkips(t, e, |t|);
    assert ScanFrom(t, e) == [];
  }

  /** `static` stands at position `p` of `s`. */
  predicate StaticAt(s: string, p: nat)
  {
    p + 6 <= |s| && s[p..p + 6] == "static"
  }

  /** No `static` stands anywhere in `s`. */
  predicate NoStaticIn(s: string)
  {
    forall p: nat :: p < |s| ==> !StaticAt(s, p)
  }

  /** No character of `static` is a line break or a space. */
  lemma StaticLetters(i: nat)
    requires i < 6
    ensures "static"[i] != '\n' && "static"[i] != ' '
  {
    assert i == 0 || i == 1 || i == 2 || i == 3 || i == 4 || i == 5;
  }

  /** Every character of `static` is a word character. */
  lemma StaticWordLetters(i: nat)
    requires i < 6
    ensures IsWordChar("static"[i])
  {
    assert i == 0 || i == 1 || i == 2 || i == 3 || i == 4 || i == 5;
  }

  /** A text that lacks one of the letters of `static` holds no `static`. */
  lemma NoStaticWithout(s: string, k: nat)
    requires k < 6 && forall i :: 0 <= i < |s| ==> s[i] != "static"[k]
    ensures NoStaticIn(s)
  {
    forall p: nat | p < |s|
      ensures !StaticAt(s, p)
    {
      if p + 6 <= |s| {
        assert s[p..p + 6][k] == s[p + k];
      }
    }
  }

  /**
   * Two texts without `static`, joined after a character that is not a word
   * character, hold no `static`: an occurrence across the join would need that
   * character to be one of its letters.
   */
  lemma NoStaticJoin(a: string, b: string)
    requires NoStaticIn(a) && NoStaticIn(b)
    requires a == [] || !IsWordChar(a[|a| - 1])
    ensures NoStaticIn(a + b)
  {
    forall p: nat | p < |a + b|
      ensures !StaticAt(a + b, p)
    {
      if p + 6 <= |a + b| {
        if p + 6 <= |a| {
          assert (a + b)[p..p + 6] == a[p..p + 6];
          assert !StaticAt(a, p);
        } else if |a| <= p {
          assert (a + b)[p..p + 6] == b[p - |a|..p - |a| + 6];
          assert !StaticAt(b, p - |a|);
        } else {
          var i := |a| - 1 - p;
          assert (a + b)[p..p + 6][i] == a[|a| - 1];
          StaticWordLetters(i);
        }
      }
    }
  }

  /**
   * No match starts inside a leading text `pre` that holds no `static` and ends
   * in a line break (or is empty).
   */
  lemma NoMatchInPrefix(t: string, pre: string)
    requires |pre| <= |t| && t[..|pre|] == pre
    requires NoStaticIn(pre) && (pre == [] || pre[|pre| - 1] == '\n')
    ensures forall p :: 0 <= p < |pre| ==> DeclAt(t, p).None?
  {
    forall p | 0 <= p < |pre|
      ensures DeclAt(t, p).None?
    {
      if p + 6 <= |t| {
        if p + 6 <= |pre| {
          assert t[p..p + 6] == pre[p..p + 6];
          assert !StaticAt(pre, p);
        } else {
          var i := |pre| - 1 - p;
          assert t[p..p + 6][i] == t[..|pre|][|pre| - 1];
          StaticLetters(i);
        }
      }
    }
  }

  /** No match starts inside a trailing text without the letter `a`. */
  lemma NoMatchInSuffix(t: string, e: nat)
    requires e <= |t| && 'a' !in t[e..]
    ensures forall p :: e <= p <= |t| ==> DeclAt(t, p).None?
  {
    forall p | e <= p <= |t|
      ensures DeclAt(t, p).None?
    {
      if p + 6 <= |t| {
        assert t[p..p + 6][2] == t[e..][p + 2 - e];
      }
    }
  }
}
