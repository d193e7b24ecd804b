/**
 * `combine_to_js`: regenerate the JavaScript module from a selection of list
 * files. The module is a fixed preamble, one `static NAME = <json>;`
 * declaration per selected list whose JSON was loaded, the aggregate
 * `static CustomTpList = [ this.NAME, ... ];` naming EVERY selected list, and a
 * fixed closing. A selected list that was not loaded gets a warning instead of
 * a declaration, but is still named in the aggregate.
 *
 * The JSON printer is a parameter; writing the output file is left to the caller.
 */
module Combiner {
  import opened Wrappers
  import opened Json
  import opened Chars
  import opened PathNames
  import opened SeqFacts
  import opened DeclScan
  import Extractor

  /**
   * The module header and the opening of the class, line by line; the second
   * line is cut after `defineProperty(`, and no literal is longer than 30
   * characters, so that the solver can index each one.
   */
  const HeaderStrict: string := "\"use strict\";\n"
  const HeaderDefine: string := "Object.defineProperty("
  const HeaderEsModule: string := "exports, \"__esModule\", " + "{ value: !0 }),\n"
  const HeaderVoid: string := "  (exports.ModTpFile" + " = void 0);\n"
  const HeaderPuerts: string := "const puerts_1 = " + "require(\"puerts\"),\n"
  const HeaderUe: string := "  UE = require(\"ue\"),\n"
  const HeaderInfo: string := "  Info_1 = require(\"" + "../../../Core/Common/Info\"),\n"
  const HeaderLog: string := "  Log_1 = require(\"" + "../../../Core/Common/Log\"),\n"
  const HeaderModManager: string := "  ModManager_1 = require(\"" + "../ModManager\"),\n"
  const HeaderModCustomTp: string := "  ModCustomTp_1 = require(\"" + "./ModCustomTp\");\n"
  const HeaderBlank: string := "\n"
  const HeaderClass: string := "class ModTpFile {\n"

  /** The module header and the opening of the class. */
  const Preamble: string :=
    HeaderStrict + HeaderDefine + HeaderEsModule + HeaderVoid + HeaderPuerts + HeaderUe
    + HeaderInfo + HeaderLog + HeaderModManager + HeaderModCustomTp + HeaderBlank + HeaderClass

  /** The text between the declarations and the aggregate's entries. */
  const AggregateOpen: string := "\n  " + "static" + " " + Extractor.Reserved + " " + "=" + " " + "[" + "\n    "

  /** The text between two entries of the aggregate. */
  const Separator: string := ",\n    "

  /** The end of the aggregate, of the class and of the module. */
  const Closing: string := "\n  " + "];" + Tail

  /** The end of the class and of the module, after the aggregate. */
  const Tail: string := "\n}\nexports.ModTpFile = ModTpFile;\n"

  /** The declaration of one list whose printed JSON is `body`. */
  function Declaration(name: string, body: string): string
  {
    "    static " + name + " = " + body + ";\n"
  }

  /** The list name of each selected path, in selection order. */
  function ListNames(selected: seq<string>): (r: seq<string>)
    ensures |r| == |selected|
  {
    seq(|selected|, k requires 0 <= k < |selected| => ListName(selected[k]))
  }

  /** The declaration a selected list contributes: its own, or nothing when it was not loaded. */
  function DeclarationOf(jsonFiles: map<string, Value>, name: string, dumps: Value -> string): string
  {
    if name in jsonFiles then Declaration(name, dumps(jsonFiles[name])) else ""
  }

  /** The declarations of the selected lists, in selection order. */
  function Declarations(jsonFiles: map<string, Value>, names: seq<string>, dumps: Value -> string): string
    decreases |names|
  {
    if names == [] then ""
    else (Declarations(jsonFiles, names[..|names| - 1], dumps)
          + DeclarationOf(jsonFiles, names[|names| - 1], dumps))
  }

  /** The selected lists that were loaded, in selection order. */
  function Found(jsonFiles: map<string, Value>, names: seq<string>): (r: seq<string>)
    ensures forall i :: 0 <= i < |r| ==> r[i] in jsonFiles
    decreases |names|
  {
    if names == [] then []
    else
      var name := names[|names| - 1];
      Found(jsonFiles, names[..|names| - 1]) + (if name in jsonFiles then [name] else [])
  }

  /** The selected lists that were not loaded, each warned about, in selection order. */
  function Missing(jsonFiles: map<string, Value>, names: seq<string>): seq<string>
    decreases |names|
  {
    if names == [] then []
    else
      var name := names[|names| - 1];
      Missing(jsonFiles, names[..|names| - 1]) + (if name in jsonFiles then [] else [name])
  }

  /** The aggregate's entries: one `this.NAME` per selected list. */
  function References(names: seq<string>): seq<string>
  {
    seq(|names|, k requires 0 <= k < |names| => "this." + names[k])
  }

  /** `sep.join(xs)`. */
  function Join(xs: seq<string>, sep: string): string
    decreases |xs|
  {
    if xs == [] then ""
    else if |xs| == 1 then xs[0]
    else Join(xs[..|xs| - 1], sep) + sep + xs[|xs| - 1]
  }

  /**
   * The generated module after the text `preamble`; `combine_to_js` writes it
   * after `Preamble`. Only the read-back of the whole module depends on the
   * preamble, through the fact that it holds no `static` (PreambleNoStatic).
   */
  function Generated(preamble: string, jsonFiles: map<string, Value>, names: seq<string>, dumps: Value -> string): string
  {
    preamble + Declarations(jsonFiles, names, dumps)
      + AggregateOpen + Join(References(names), Separator) + Closing
  }

  /** `combine_to_js`: the generated module and the lists warned about. */
  method Combine(jsonFiles: map<string, Value>, selected: seq<string>, dumps: Value -> string)
    returns (out: string, warnings: seq<string>)
    ensures out == Generated(Preamble, jsonFiles, ListNames(selected), dumps)
    ensures warnings == Missing(jsonFiles, ListNames(selected))
  {
    ghost var names := ListNames(selected);
    out := Preamble;
    warnings := [];
    var i := 0;
    while i < |selected|
      invariant 0 <= i <= |selected|
      invariant out == Preamble + Declarations(jsonFiles, names[..i], dumps)
      invariant warnings == Missing(jsonFiles, names[..i])
    {
      PrefixSnoc(names, i);
      assert names[..i + 1][..i] == names[..i];
      var listName := ListName(selected[i]);
      assert listName == names[i];
      ghost var before := Declarations(jsonFiles, names[..i], dumps);
      assert Declarations(jsonFiles, names[..i + 1], dumps) == before + DeclarationOf(jsonFiles, listName, dumps);
      if listName in jsonFiles {
        var listContent := dumps(jsonFiles[listName]);
        Assoc(Preamble, before, Declaration(listName, listContent));
        out := out + Declaration(listName, listContent);
      } else {
        assert before + DeclarationOf(jsonFiles, listName, dumps) == before;
        warnings := warnings + [listName];
      }
      i := i + 1;
    }
    assert names[..i] == names;
    var allLists := Join(References(ListNames(selected)), Separator);
    out := out + AggregateOpen + allLists + Closing;
  }

  // ---------------------------------------------------------------------------
  // Found and missing lists

  /**
   * Every selected list is either declared or warned about, never both: a name
   * is found exactly when it is selected and loaded, and missing exactly when
   * it is selected and not loaded; each selected path adds to one of the two.
   */
  lemma {:induction false} FoundMissingPartition(jsonFiles: map<string, Value>, names: seq<string>, name: string)
    ensures |Found(jsonFiles, names)| + |Missing(jsonFiles, names)| == |names|
    ensures name in Found(jsonFiles, names) <==> name in jsonFiles && name in names
    ensures name in Missing(jsonFiles, names) <==> name !in jsonFiles && name in names
    decreases |names|
  {
    if names != [] {
      var n := |names| - 1;
      var front := names[..n];
      FoundMissingPartition(jsonFiles, front, name);
      assert names == front + [names[n]];
    }
  }

  /**
   * When every selected list was loaded, the aggregate names exactly the
   * declared lists, in selection order.
   */
  lemma {:induction false} NoneMissingAggregateIsFound(jsonFiles: map<string, Value>, names: seq<string>)
    requires Missing(jsonFiles, names) == []
    ensures |References(names)| == |Found(jsonFiles, names)|
    ensures forall k :: 0 <= k < |names| ==> References(names)[k] == "this." + Found(jsonFiles, names)[k]
    decreases |names|
  {
    if names != [] {
      var n := |names| - 1;
      var front := names[..n];
      assert Missing(jsonFiles, front) == [];
      NoneMissingAggregateIsFound(jsonFiles, front);
      assert names[n] in jsonFiles;
      assert Found(jsonFiles, names) == Found(jsonFiles, front) + [names[n]];
      forall k | 0 <= k < n
        ensures References(names)[k] == References(front)[k]
      {
        assert names[k] == front[k];
      }
    }
  }

  /**
   * The aggregate names every selected list, the missing ones included: it has
   * one entry per declaration plus one per warning.
   */
  lemma AggregateCountsMissing(jsonFiles: map<string, Value>, names: seq<string>)
    ensures |References(names)| == |Found(jsonFiles, names)| + |Missing(jsonFiles, names)|
  {
    FoundMissingPartition(jsonFiles, names, "");
  }

  /** The lists found among two runs of selected names, one after the other. */
  lemma {:induction false} FoundAppend(jsonFiles: map<string, Value>, a: seq<string>, b: seq<string>)
    ensures Found(jsonFiles, a + b) == Found(jsonFiles, a) + Found(jsonFiles, b)
    decreases |b|
  {
    if b == [] {
      assert a + b == a;
    } else {
      var n := |b| - 1;
      assert (a + b)[..|a + b| - 1] == a + b[..n];
      FoundAppend(jsonFiles, a, b[..n]);
    }
  }

  /** The lists found among the selected names, from the first one on. */
  lemma FoundCons(jsonFiles: map<string, Value>, names: seq<string>)
    requires names != []
    ensures Found(jsonFiles, names)
         == (if names[0] in jsonFiles then [names[0]] else []) + Found(jsonFiles, names[1..])
  {
    assert names == [names[0]] + names[1..];
    FoundAppend(jsonFiles, [names[0]], names[1..]);
    assert [names[0]][..0] == [];
  }

  /**
   * The declarations written are those of the found lists, in selection order:
   * one `Declaration(n, dumps(jsonFiles[n]))` per name `n` of `Found`, each of
   * which is loaded, and nothing for a missing list.
   */
  lemma {:induction false} DeclarationsAreFound(jsonFiles: map<string, Value>, names: seq<string>, dumps: Value -> string)
    ensures Declarations(jsonFiles, names, dumps) == Declarations(jsonFiles, Found(jsonFiles, names), dumps)
    decreases |names|
  {
    if names != [] {
      var n := |names| - 1;
      var front := names[..n];
      DeclarationsAreFound(jsonFiles, front, dumps);
      var f := Found(jsonFiles, front);
      if names[n] in jsonFiles {
        assert Found(jsonFiles, names) == f + [names[n]];
        assert (f + [names[n]])[..|f|] == f;
      } else {
        assert Found(jsonFiles, names) == f;
      }
    }
  }

  // ---------------------------------------------------------------------------
  // The aggregate's entries

  /** How many times `c` occurs in `s`. */
  function Occurrences(s: string, c: char): nat
    decreases |s|
  {
    if s == [] then 0 else (if s[0] == c then 1 else 0) + Occurrences(s[1..], c)
  }

  lemma {:induction false} OccurrencesAppend(a: string, b: string, c: char)
    ensures Occurrences(a + b, c) == Occurrences(a, c) + Occurrences(b, c)
    decreases |a|
  {
    if a == [] {
      assert a + b == b;
    } else {
      assert (a + b)[0] == a[0] && (a + b)[1..] == a[1..] + b;
      OccurrencesAppend(a[1..], b, c);
    }
  }

  lemma {:induction false} NoOccurrences(s: string, c: char)
    requires c !in s
    ensures Occurrences(s, c) == 0
    decreases |s|
  {
    if s != [] {
      NoOccurrences(s[1..], c);
    }
  }

  /**
   * Joining entries that do not contain `c` puts into the text exactly the
   * occurrences of `c` that the separators bring.
   */
  lemma {:induction false} JoinOccurrences(xs: seq<string>, sep: string, c: char)
    requires xs != [] && forall k :: 0 <= k < |xs| ==> c !in xs[k]
    ensures Occurrences(Join(xs, sep), c) == (|xs| - 1) * Occurrences(sep, c)
    decreases |xs|
  {
    var n := |xs| - 1;
    if n == 0 {
      NoOccurrences(xs[0], c);
    } else {
      JoinOccurrences(xs[..n], sep, c);
      OccurrencesAppend(Join(xs[..n], sep) + sep, xs[n], c);
      OccurrencesAppend(Join(xs[..n], sep), sep, c);
      NoOccurrences(xs[n], c);
    }
  }

  /** Where the entry `k` begins in the joined text. */
  function JoinOffset(xs: seq<string>, sep: string, k: nat): nat
    requires k <= |xs|
  {
    if k == 0 then 0 else |Join(xs[..k], sep)| + |sep|
  }

  /** The join of the first `j` entries begins the join of all of them. */
  lemma {:induction false} JoinPrefix(xs: seq<string>, sep: string, j: nat)
    requires 1 <= j <= |xs|
    ensures |Join(xs[..j], sep)| <= |Join(xs, sep)|
    ensures Join(xs, sep)[..|Join(xs[..j], sep)|] == Join(xs[..j], sep)
    decreases |xs|
  {
    var n := |xs| - 1;
    if j == |xs| {
      assert xs[..j] == xs;
    } else {
      JoinPrefix(xs[..n], sep, j);
      assert xs[..n][..j] == xs[..j];
    }
  }

  /** Entry `k` stands in the joined text at its offset. */
  lemma JoinEntry(xs: seq<string>, sep: string, k: nat)
    requires k < |xs|
    ensures JoinOffset(xs, sep, k) + |xs[k]| <= |Join(xs, sep)|
    ensures Join(xs, sep)[JoinOffset(xs, sep, k)..JoinOffset(xs, sep, k) + |xs[k]|] == xs[k]
  {
    var upto := xs[..k + 1];
    JoinPrefix(xs, sep, k + 1);
    if k > 0 {
      assert upto[..k] == xs[..k];
      assert Join(upto, sep) == Join(xs[..k], sep) + sep + xs[k];
    } else {
      assert Join(upto, sep) == xs[0];
    }
  }

  /** The offsets of the entries increase: the entries stand in the text in their order, apart. */
  lemma JoinOffsetsIncrease(xs: seq<string>, sep: string, k: nat)
    requires k + 1 < |xs|
    ensures JoinOffset(xs, sep, k) + |xs[k]| + |sep| == JoinOffset(xs, sep, k + 1)
  {
    var upto := xs[..k + 1];
    if k > 0 {
      assert upto[..k] == xs[..k];
      assert Join(upto, sep) == Join(xs[..k], sep) + sep + xs[k];
    } else {
      assert Join(upto, sep) == xs[0];
    }
  }

  /** The separator of the aggregate holds one comma. */
  lemma SeparatorCommas()
    ensures Occurrences(Separator, ',') == 1
  {
    var spaces := "\n    ";
    assert Separator == [','] + spaces;
    NoOccurrences(spaces, ',');
  }

  /**
   * When no selected name holds a comma, the aggregate holds exactly one
   * `this.NAME` entry per selected list, in selection order: entry `k` is
   * `this.` and the `k`-th name, and the entries are separated by exactly
   * `|names| - 1` commas.
   */
  lemma AggregateEntries(names: seq<string>, k: nat)
    requires names != [] && forall j :: 0 <= j < |names| ==> ',' !in names[j]
    requires k < |names|
    ensures Occurrences(Join(References(names), Separator), ',') == |names| - 1
    ensures var at := JoinOffset(References(names), Separator, k);
      at + 5 + |names[k]| <= |Join(References(names), Separator)|
      && Join(References(names), Separator)[at..at + 5 + |names[k]|] == "this." + names[k]
  {
    var refs := References(names);
    forall j | 0 <= j < |refs|
      ensures ',' !in refs[j]
    {
      assert refs[j] == "this." + names[j];
    }
    JoinOccurrences(refs, Separator, ',');
    SeparatorCommas();
    JoinEntry(refs, Separator, k);
  }

  // ---------------------------------------------------------------------------
  // The declaration scan reads back what the combiner writes

  /** A declaration written with a printed array is the declaration text the scan recognises. */
  lemma DeclarationLayout(name: string, inner: string)
    ensures Declaration(name, "[" + inner + "]") == "    " + DeclText(" ", name, " ", " ", inner) + "\n"
  {
  }

  /**
   * The scan, started at the `static` of a written declaration, recognises it
   * whole and recovers the list's name and its printed JSON, provided the name
   * is a word and the printed array holds no `];` before its end.
   */
  lemma DeclarationScans(t: string, q: nat, name: string, inner: string)
    requires name != [] && AllWord(name) && NoClose(inner)
    requires q + |Declaration(name, "[" + inner + "]")| <= |t|
    requires t[q..q + |Declaration(name, "[" + inner + "]")|] == Declaration(name, "[" + inner + "]")
    ensures DeclAt(t, q + 4) == Some((q + |Declaration(name, "[" + inner + "]")| - 1, Decl(name, "[" + inner + "]")))
  {
    var d := Declaration(name, "[" + inner + "]");
    var text := DeclText(" ", name, " ", " ", inner);
    DeclarationLayout(name, inner);
    assert d[4..4 + |text|] == text;
    SliceOfSlice(t, q, q + |d|, 4, 4 + |text|);
    ShapedMatches(t, q + 4, " ", name, " ", " ", inner);
  }

  /** The declarations of the first `j` selected lists begin the declarations of all of them. */
  lemma {:induction false} DeclarationsPrefix(jsonFiles: map<string, Value>, names: seq<string>, dumps: Value -> string, j: nat)
    requires j <= |names|
    ensures |Declarations(jsonFiles, names[..j], dumps)| <= |Declarations(jsonFiles, names, dumps)|
    ensures Declarations(jsonFiles, names, dumps)[..|Declarations(jsonFiles, names[..j], dumps)|]
         == Declarations(jsonFiles, names[..j], dumps)
    decreases |names|
  {
    if j == |names| {
      assert names[..j] == names;
    } else {
      var n := |names| - 1;
      var front := names[..n];
      DeclarationsPrefix(jsonFiles, front, dumps, j);
      assert front[..j] == names[..j];
      var p := Declarations(jsonFiles, names[..j], dumps);
      assert Declarations(jsonFiles, front, dumps)[..|p|] == p;
      PrefixOfAppend(Declarations(jsonFiles, front, dumps), DeclarationOf(jsonFiles, names[n], dumps), p);
    }
  }

  /** Where the declaration of the `k`-th selected list begins in the generated module. */
  function DeclarationStart(preamble: string, jsonFiles: map<string, Value>, names: seq<string>,
                            dumps: Value -> string, k: nat): nat
    requires k <= |names|
  {
    |preamble| + |Declarations(jsonFiles, names[..k], dumps)|
  }

  /** The declarations up to and including the `k`-th one. */
  lemma DeclarationsSnoc(jsonFiles: map<string, Value>, names: seq<string>, dumps: Value -> string, k: nat)
    requires k < |names|
    ensures Declarations(jsonFiles, names[..k + 1], dumps)
         == Declarations(jsonFiles, names[..k], dumps) + DeclarationOf(jsonFiles, names[k], dumps)
  {
    PrefixSnoc(names, k);
    assert names[..k + 1][..k] == names[..k];
  }

  /** The declarations split around the `k`-th one: those before it, it, and the rest. */
  lemma DeclarationsAround(jsonFiles: map<string, Value>, names: seq<string>, dumps: Value -> string, k: nat)
    requires k < |names|
    ensures var before := Declarations(jsonFiles, names[..k], dumps);
      var d := DeclarationOf(jsonFiles, names[k], dumps);
      var all := Declarations(jsonFiles, names, dumps);
      |before| + |d| <= |all| && all == before + d + all[|before| + |d|..]
  {
    var upto := Declarations(jsonFiles, names[..k + 1], dumps);
    DeclarationsSnoc(jsonFiles, names, dumps, k);
    DeclarationsPrefix(jsonFiles, names, dumps, k + 1);
    PrefixRest(Declarations(jsonFiles, names, dumps), upto);
  }

  /** The generated module around the declaration of the `k`-th selected list. */
  lemma DeclarationInText(preamble: string, jsonFiles: map<string, Value>, names: seq<string>,
                          dumps: Value -> string, k: nat)
    requires k < |names|
    ensures var q := DeclarationStart(preamble, jsonFiles, names, dumps, k);
      var d := DeclarationOf(jsonFiles, names[k], dumps);
      q + |d| <= |Generated(preamble, jsonFiles, names, dumps)|
      && Generated(preamble, jsonFiles, names, dumps)[q..q + |d|] == d
  {
    var d := DeclarationOf(jsonFiles, names[k], dumps);
    var before := Declarations(jsonFiles, names[..k], dumps);
    var all := Declarations(jsonFiles, names, dumps);
    DeclarationsAround(jsonFiles, names, dumps, k);
    var after := all[|before| + |d|..];
    MiddleSlice(preamble, before, d, after, AggregateOpen, Join(References(names), Separator), Closing);
  }

  /** Where the middle piece of the generated module's shape stands. */
  lemma MiddleSlice<T>(h: seq<T>, a: seq<T>, d: seq<T>, b: seq<T>, x: seq<T>, y: seq<T>, z: seq<T>)
    ensures |h| + |a| + |d| <= |h + (a + d + b) + x + y + z|
    ensures (h + (a + d + b) + x + y + z)[|h| + |a|..|h| + |a| + |d|] == d
  {
    assert h + (a + d + b) + x + y + z == (h + a) + d + (b + x + y + z);
    SliceOfConcat(h + a, d, b + x + y + z);
  }

  /**
   * In the generated module, the scan started at the `static` of the `k`-th
   * selected list's declaration recovers that list: its name and its printed
   * JSON, exactly as the combiner wrote them.
   */
  lemma EmittedDeclarationScans(preamble: string, jsonFiles: map<string, Value>, names: seq<string>,
                                dumps: Value -> string, k: nat, inner: string)
    requires k < |names| && names[k] in jsonFiles && names[k] != [] && AllWord(names[k])
    requires dumps(jsonFiles[names[k]]) == "[" + inner + "]" && NoClose(inner)
    ensures var q := DeclarationStart(preamble, jsonFiles, names, dumps, k);
      var d := Declaration(names[k], dumps(jsonFiles[names[k]]));
      q + |d| <= |Generated(preamble, jsonFiles, names, dumps)|
      && DeclAt(Generated(preamble, jsonFiles, names, dumps), q + 4)
         == Some((q + |d| - 1, Decl(names[k], dumps(jsonFiles[names[k]]))))
  {
    DeclarationInText(preamble, jsonFiles, names, dumps, k);
    DeclarationScans(Generated(preamble, jsonFiles, names, dumps), DeclarationStart(preamble, jsonFiles, names, dumps, k), names[k], inner);
  }

  /** A character absent from the entries and the separator is absent from their join. */
  lemma {:induction false} JoinAvoids(xs: seq<string>, sep: string, c: char)
    requires c !in sep && forall k :: 0 <= k < |xs| ==> c !in xs[k]
    ensures c !in Join(xs, sep)
    decreases |xs|
  {
    if |xs| > 1 {
      JoinAvoids(xs[..|xs| - 1], sep, c);
    }
  }

  /** A text without `]` holds no `];`. */
  lemma NoBracketNoClose(v: string)
    requires ']' !in v
    ensures NoClose(v)
  {
  }

  /** The body of the aggregate's literal: its entries between the line breaks. */
  function AggregateBody(names: seq<string>): string
  {
    "\n    " + Join(References(names), Separator) + "\n  "
  }

  /** The aggregate, written as a declaration the scan recognises. */
  lemma AggregateLayout(names: seq<string>)
    ensures AggregateOpen + Join(References(names), Separator) + Closing
         == "\n  " + AggregateText(names) + Tail
  {
    Regroup("\n  ", "static", " ", Extractor.Reserved, "=", "[", "\n    ", Join(References(names), Separator), "];", Tail);
  }

  /** The regrouping behind the aggregate's layout, for any pieces. */
  lemma Regroup<T>(nl: seq<T>, st: seq<T>, sp: seq<T>, r: seq<T>, eq: seq<T>, lb: seq<T>,
                   ind: seq<T>, j: seq<T>, rb: seq<T>, tail: seq<T>)
    ensures (nl + st + sp + r + sp + eq + sp + lb + ind) + j + (nl + rb + tail)
         == nl + (st + (sp + (r + (sp + (eq + (sp + (lb + ((ind + j + nl) + rb)))))))) + tail
  {
  }

  /** The aggregate's name is a word. */
  lemma ReservedIsWord()
    ensures Extractor.Reserved != [] && AllWord(Extractor.Reserved)
  {
    EveryCharWord(Extractor.Reserved);
  }

  /**
   * When no selected name holds `]`, the scan started at the aggregate's
   * `static` recognises it whole, as the list named `CustomTpList`; the
   * extractor's loop passes over that list without writing or reporting it.
   */
  lemma AggregateScans(preamble: string, jsonFiles: map<string, Value>, names: seq<string>,
                       dumps: Value -> string, o: Extractor.Outcome,
                       parse: string -> Option<Value>, dump: Value -> string)
    requires forall k :: 0 <= k < |names| ==> ']' !in names[k]
    ensures AggregateStart(preamble, jsonFiles, names, dumps) + |AggregateText(names)|
         <= |Generated(preamble, jsonFiles, names, dumps)|
    ensures DeclAt(Generated(preamble, jsonFiles, names, dumps), AggregateStart(preamble, jsonFiles, names, dumps))
         == Some((AggregateStart(preamble, jsonFiles, names, dumps) + |AggregateText(names)|,
                  Decl(Extractor.Reserved, "[" + AggregateBody(names) + "]")))
    ensures Extractor.Step(o, Decl(Extractor.Reserved, "[" + AggregateBody(names) + "]"), parse, dump) == o
  {
    Extractor.ReservedSkipped(o, "[" + AggregateBody(names) + "]", parse, dump);
    AggregateBodyNoClose(names);
    AggregateInText(preamble, jsonFiles, names, dumps);
    ReservedScans(Generated(preamble, jsonFiles, names, dumps),
                  AggregateStart(preamble, jsonFiles, names, dumps), AggregateBody(names));
  }

  /** Where the aggregate's `static` stands in the generated module. */
  function AggregateStart(preamble: string, jsonFiles: map<string, Value>, names: seq<string>, dumps: Value -> string): nat
  {
    |preamble| + |Declarations(jsonFiles, names, dumps)| + 3
  }

  /** The aggregate's declaration, from its `static` to its `];`. */
  function AggregateText(names: seq<string>): string
  {
    DeclText(" ", Extractor.Reserved, " ", " ", AggregateBody(names))
  }

  /** Wherever a declaration of the aggregate stands, the scan recognises it. */
  lemma ReservedScans(t: string, q: nat, body: string)
    requires NoClose(body)
    requires q + |DeclText(" ", Extractor.Reserved, " ", " ", body)| <= |t|
    requires t[q..q + |DeclText(" ", Extractor.Reserved, " ", " ", body)|] == DeclText(" ", Extractor.Reserved, " ", " ", body)
    ensures DeclAt(t, q) == Some((q + |DeclText(" ", Extractor.Reserved, " ", " ", body)|, Decl(Extractor.Reserved, "[" + body + "]")))
  {
    ReservedIsWord();
    SingleSpacedScans(t, q, Extractor.Reserved, body);
  }

  /** A declaration written with single spaces, as the combiner writes them, is recognised whole. */
  lemma SingleSpacedScans(t: string, q: nat, name: string, body: string)
    requires name != [] && AllWord(name) && NoClose(body)
    requires q + |DeclText(" ", name, " ", " ", body)| <= |t|
    requires t[q..q + |DeclText(" ", name, " ", " ", body)|] == DeclText(" ", name, " ", " ", body)
    ensures DeclAt(t, q) == Some((q + |DeclText(" ", name, " ", " ", body)|, Decl(name, "[" + body + "]")))
  {
    ShapedMatches(t, q, " ", name, " ", " ", body);
  }

  /** When no selected name holds `]`, the aggregate's body holds no `];`. */
  lemma AggregateBodyNoClose(names: seq<string>)
    requires forall k :: 0 <= k < |names| ==> ']' !in names[k]
    ensures NoClose(AggregateBody(names))
  {
    var refs := References(names);
    forall k | 0 <= k < |refs|
      ensures ']' !in refs[k]
    {
      assert refs[k] == "this." + names[k];
    }
    JoinAvoids(refs, Separator, ']');
    NoBracketNoClose(AggregateBody(names));
  }

  /** Where the aggregate's declaration stands in the generated module. */
  lemma AggregateInText(preamble: string, jsonFiles: map<string, Value>, names: seq<string>, dumps: Value -> string)
    ensures AggregateStart(preamble, jsonFiles, names, dumps) + |AggregateText(names)|
         <= |Generated(preamble, jsonFiles, names, dumps)|
    ensures Generated(preamble, jsonFiles, names, dumps)
              [AggregateStart(preamble, jsonFiles, names, dumps)..AggregateStart(preamble, jsonFiles, names, dumps) + |AggregateText(names)|]
         == AggregateText(names)
  {
    AggregateLayout(names);
    Place(preamble + Declarations(jsonFiles, names, dumps), AggregateOpen, Join(References(names), Separator), Closing,
          "\n  ", AggregateText(names), Tail);
  }

  /** Where the middle piece of a regrouped tail stands. */
  lemma Place<T>(h: seq<T>, a: seq<T>, b: seq<T>, c: seq<T>, nl: seq<T>, x: seq<T>, tail: seq<T>)
    requires a + b + c == nl + x + tail
    ensures |h| + |nl| + |x| <= |h + a + b + c|
    ensures (h + a + b + c)[|h| + |nl|..|h| + |nl| + |x|] == x
  {
    assert h + a + b + c == h + (a + b + c);
    assert h + (nl + x + tail) == (h + nl) + x + tail;
    SliceOfConcat(h + nl, x, tail);
  }

  // ---------------------------------------------------------------------------
  // Reading the generated module back

  /** A printed JSON array holding no `];` between its brackets. */
  predicate ArrayText(v: string)
  {
    |v| >= 2 && v[0] == '[' && v[|v| - 1] == ']' && NoClose(v[1..|v| - 1])
  }

  /**
   * What the module needs for the scan to read it back: no selected name holds
   * `]`, and each loaded list has a word for a name and prints as an array
   * holding no `];`.
   */
  predicate Recoverable(jsonFiles: map<string, Value>, names: seq<string>, dumps: Value -> string)
  {
    forall k :: 0 <= k < |names| ==>
      ']' !in names[k]
      && (names[k] in jsonFiles ==> names[k] != [] && AllWord(names[k]) && ArrayText(dumps(jsonFiles[names[k]])))
  }

  /** The declaration the module holds for each loaded list, in selection order. */
  function DeclaredLists(jsonFiles: map<string, Value>, names: seq<string>, dumps: Value -> string): (r: seq<Decl>)
    ensures |r| == |Found(jsonFiles, names)|
    ensures forall i :: 0 <= i < |r| ==> r[i].name == Found(jsonFiles, names)[i]
  {
    var f := Found(jsonFiles, names);
    seq(|f|, i requires 0 <= i < |f| => Decl(f[i], dumps(jsonFiles[f[i]])))
  }

  /** The declared lists among the selected names from the `k`-th on. */
  lemma DeclaredListsFrom(jsonFiles: map<string, Value>, names: seq<string>, dumps: Value -> string, k: nat)
    requires k < |names|
    ensures DeclaredLists(jsonFiles, names[k..], dumps)
         == (if names[k] in jsonFiles then [Decl(names[k], dumps(jsonFiles[names[k]]))] else [])
            + DeclaredLists(jsonFiles, names[k + 1..], dumps)
  {
    FoundCons(jsonFiles, names[k..]);
    assert names[k..][1..] == names[k + 1..];
  }

  /** The aggregate's declaration, as the scan reports it. */
  function AggregateDecl(names: seq<string>): Decl
  {
    Decl(Extractor.Reserved, "[" + AggregateBody(names) + "]")
  }

  /** The generated module: the preamble and declarations, the aggregate after a line break and two spaces, and the tail. */
  lemma GeneratedLayout(preamble: string, jsonFiles: map<string, Value>, names: seq<string>, dumps: Value -> string)
    ensures Generated(preamble, jsonFiles, names, dumps)
         == (preamble + Declarations(jsonFiles, names, dumps)) + ("\n  " + AggregateText(names) + Tail)
  {
    AggregateLayout(names);
    Assoc3(preamble + Declarations(jsonFiles, names, dumps), AggregateOpen, Join(References(names), Separator), Closing);
  }

  /** Grouping four pieces to the right. */
  lemma Assoc3<T>(h: seq<T>, a: seq<T>, b: seq<T>, c: seq<T>)
    ensures h + a + b + c == h + (a + b + c)
  {
  }

  /** The closing text holds no `a`, so no `static` starts in it. */
  lemma TailHasNoA()
    ensures 'a' !in Tail
  {
  }

  /** Wherever the aggregate's declaration stands, the scan recognises it. */
  lemma AggregateTextScans(t: string, a: nat, e: nat, names: seq<string>)
    requires forall k :: 0 <= k < |names| ==> ']' !in names[k]
    requires e == a + |AggregateText(names)| <= |t| && t[a..e] == AggregateText(names)
    ensures DeclAt(t, a) == Some((e, AggregateDecl(names)))
  {
    AggregateBodyNoClose(names);
    ReservedScans(t, a, AggregateBody(names));
  }

  /** The three pieces of a text's suffix, where they stand in the text. */
  lemma PiecesAt<T>(t: seq<T>, q: nat, x: seq<T>, y: seq<T>, z: seq<T>)
    requires q <= |t| && t[q..] == x + y + z
    ensures q + |x| + |y| + |z| == |t|
    ensures forall i :: 0 <= i < |x| ==> t[q + i] == x[i]
    ensures t[q + |x|..q + |x| + |y|] == y && t[q + |x| + |y|..] == z
  {
    assert forall i :: 0 <= i < |x| ==> t[q + i] == t[q..][i];
    assert t[q + |x|..q + |x| + |y|] == t[q..][|x|..|x| + |y|];
    assert t[q + |x| + |y|..] == t[q..][|x| + |y|..];
  }

  /** The aggregate as written: a line break and two spaces, its declaration, and the closing text. */
  lemma AggregateChars(t: string, q: nat, e: nat, names: seq<string>)
    requires q <= |t| && t[q..] == "\n  " + AggregateText(names) + Tail
    requires e == q + 3 + |AggregateText(names)|
    ensures q + 3 < e <= |t| && t[q + 3..e] == AggregateText(names)
    ensures forall p :: q <= p < q + 3 ==> t[p] != 's'
    ensures 'a' !in t[e..]
  {
    PiecesAt(t, q, "\n  ", AggregateText(names), Tail);
    assert forall p :: q <= p < q + 3 ==> t[p] == "\n  "[p - q];
    TailHasNoA();
  }

  /**
   * Wherever the aggregate stands, after a line break and two spaces and
   * followed by the closing text to the end, the scan finds it and nothing else.
   */
  lemma AggregateStep(t: string, q: nat, names: seq<string>)
    requires forall k :: 0 <= k < |names| ==> ']' !in names[k]
    requires q <= |t| && t[q..] == "\n  " + AggregateText(names) + Tail
    ensures Decls(ScanFrom(t, q)) == [AggregateDecl(names)]
  {
    var e := q + 3 + |AggregateText(names)|;
    AggregateChars(t, q, e, names);
    AggregateTextScans(t, q + 3, e, names);
    ScanLast(t, q, q + 3, e, AggregateDecl(names));
  }

  /** The scan, started after the declarations, finds the aggregate and nothing after it. */
  lemma ScanAggregate(preamble: string, jsonFiles: map<string, Value>, names: seq<string>, dumps: Value -> string)
    requires forall k :: 0 <= k < |names| ==> ']' !in names[k]
    ensures DeclarationStart(preamble, jsonFiles, names, dumps, |names|) <= |Generated(preamble, jsonFiles, names, dumps)|
    ensures Decls(ScanFrom(Generated(preamble, jsonFiles, names, dumps), DeclarationStart(preamble, jsonFiles, names, dumps, |names|)))
         == [AggregateDecl(names)]
  {
    AggregateAfterDeclarations(preamble, jsonFiles, names, dumps);
    AggregateStep(Generated(preamble, jsonFiles, names, dumps), DeclarationStart(preamble, jsonFiles, names, dumps, |names|), names);
  }

  /** What follows the declarations in the generated module: the aggregate and the closing text. */
  lemma AggregateAfterDeclarations(preamble: string, jsonFiles: map<string, Value>, names: seq<string>, dumps: Value -> string)
    ensures var q := DeclarationStart(preamble, jsonFiles, names, dumps, |names|);
      q <= |Generated(preamble, jsonFiles, names, dumps)|
      && Generated(preamble, jsonFiles, names, dumps)[q..] == "\n  " + AggregateText(names) + Tail
  {
    var h := preamble + Declarations(jsonFiles, names, dumps);
    assert names[..|names|] == names;
    GeneratedLayout(preamble, jsonFiles, names, dumps);
    AppendSlices(h, "\n  " + AggregateText(names) + Tail);
  }

  /** A written declaration: four spaces, the match, and a line break. */
  lemma DeclarationChars(t: string, q: nat, next: nat, name: string, inner: string)
    requires name != [] && AllWord(name) && NoClose(inner)
    requires next == q + |Declaration(name, "[" + inner + "]")| <= |t|
    requires t[q..next] == Declaration(name, "[" + inner + "]")
    ensures q + 4 < next - 1 && DeclAt(t, q + 4) == Some((next - 1, Decl(name, "[" + inner + "]")))
    ensures (forall p :: q <= p < q + 4 ==> t[p] != 's') && t[next - 1] != 's'
  {
    var d := Declaration(name, "[" + inner + "]");
    DeclarationScans(t, q, name, inner);
    assert forall p :: q <= p < q + 4 ==> t[p] == t[q..next][p - q] == d[p - q];
    assert t[next - 1] == t[q..next][|d| - 1] == d[|d| - 1];
  }

  /** Wherever a written declaration stands, the scan records it and resumes after its line. */
  lemma DeclarationStep(t: string, q: nat, next: nat, name: string, inner: string)
    requires name != [] && AllWord(name) && NoClose(inner)
    requires next == q + |Declaration(name, "[" + inner + "]")| <= |t|
    requires t[q..next] == Declaration(name, "[" + inner + "]")
    ensures Decls(ScanFrom(t, q)) == [Decl(name, "[" + inner + "]")] + Decls(ScanFrom(t, next))
  {
    DeclarationChars(t, q, next, name, inner);
    ScanLine(t, q, q + 4, next - 1, next, Decl(name, "[" + inner + "]"));
  }

  /** Where the `k`-th selected list's declaration stands, and where the next one begins. */
  lemma DeclarationPlaced(preamble: string, jsonFiles: map<string, Value>, names: seq<string>,
                          dumps: Value -> string, k: nat)
    requires k < |names|
    ensures var q := DeclarationStart(preamble, jsonFiles, names, dumps, k);
      var d := DeclarationOf(jsonFiles, names[k], dumps);
      DeclarationStart(preamble, jsonFiles, names, dumps, k + 1) == q + |d|
      && q + |d| <= |Generated(preamble, jsonFiles, names, dumps)|
      && Generated(preamble, jsonFiles, names, dumps)[q..q + |d|] == d
  {
    DeclarationsSnoc(jsonFiles, names, dumps, k);
    DeclarationInText(preamble, jsonFiles, names, dumps, k);
  }

  /** The declaration of a loaded list, in the generated module, from its indented start to the next one. */
  lemma LoadedPlaced(preamble: string, jsonFiles: map<string, Value>, names: seq<string>,
                     dumps: Value -> string, k: nat, inner: string)
    requires k < |names| && names[k] in jsonFiles && dumps(jsonFiles[names[k]]) == "[" + inner + "]"
    ensures var q := DeclarationStart(preamble, jsonFiles, names, dumps, k);
      var next := DeclarationStart(preamble, jsonFiles, names, dumps, k + 1);
      next == q + |Declaration(names[k], "[" + inner + "]")| <= |Generated(preamble, jsonFiles, names, dumps)|
      && Generated(preamble, jsonFiles, names, dumps)[q..next] == Declaration(names[k], "[" + inner + "]")
  {
    DeclarationPlaced(preamble, jsonFiles, names, dumps, k);
  }

  /** The scan, started at a loaded list's declaration, records it and goes on to the next one. */
  lemma ScanLoaded(preamble: string, jsonFiles: map<string, Value>, names: seq<string>,
                   dumps: Value -> string, k: nat)
    requires k < |names| && names[k] in jsonFiles && Recoverable(jsonFiles, names, dumps)
    ensures DeclarationStart(preamble, jsonFiles, names, dumps, k)
         <= DeclarationStart(preamble, jsonFiles, names, dumps, k + 1) <= |Generated(preamble, jsonFiles, names, dumps)|
    ensures Decls(ScanFrom(Generated(preamble, jsonFiles, names, dumps), DeclarationStart(preamble, jsonFiles, names, dumps, k)))
         == [Decl(names[k], dumps(jsonFiles[names[k]]))]
            + Decls(ScanFrom(Generated(preamble, jsonFiles, names, dumps), DeclarationStart(preamble, jsonFiles, names, dumps, k + 1)))
  {
    var v := dumps(jsonFiles[names[k]]);
    var inner := v[1..|v| - 1];
    assert v == "[" + inner + "]";
    LoadedPlaced(preamble, jsonFiles, names, dumps, k, inner);
    DeclarationStep(Generated(preamble, jsonFiles, names, dumps), DeclarationStart(preamble, jsonFiles, names, dumps, k),
                    DeclarationStart(preamble, jsonFiles, names, dumps, k + 1), names[k], inner);
  }

  /** The scan, started at the `k`-th declaration, passes over it and goes on to the next one. */
  lemma ScanDeclaration(preamble: string, jsonFiles: map<string, Value>, names: seq<string>,
                        dumps: Value -> string, k: nat)
    requires k < |names| && Recoverable(jsonFiles, names, dumps)
    ensures DeclarationStart(preamble, jsonFiles, names, dumps, k)
         <= DeclarationStart(preamble, jsonFiles, names, dumps, k + 1) <= |Generated(preamble, jsonFiles, names, dumps)|
    ensures Decls(ScanFrom(Generated(preamble, jsonFiles, names, dumps), DeclarationStart(preamble, jsonFiles, names, dumps, k)))
         == (if names[k] in jsonFiles then [Decl(names[k], dumps(jsonFiles[names[k]]))] else [])
            + Decls(ScanFrom(Generated(preamble, jsonFiles, names, dumps), DeclarationStart(preamble, jsonFiles, names, dumps, k + 1)))
  {
    DeclarationPlaced(preamble, jsonFiles, names, dumps, k);
    if names[k] in jsonFiles {
      ScanLoaded(preamble, jsonFiles, names, dumps, k);
    } else {
      assert DeclarationStart(preamble, jsonFiles, names, dumps, k + 1) == DeclarationStart(preamble, jsonFiles, names, dumps, k);
    }
  }

  /** The scan, started at the `k`-th declaration, finds the declared lists from there on, then the aggregate. */
  lemma {:induction false} ScanDeclarationsFrom(preamble: string, jsonFiles: map<string, Value>,
                                                names: seq<string>, dumps: Value -> string, k: nat)
    requires k <= |names| && Recoverable(jsonFiles, names, dumps)
    ensures DeclarationStart(preamble, jsonFiles, names, dumps, k) <= |Generated(preamble, jsonFiles, names, dumps)|
    ensures Decls(ScanFrom(Generated(preamble, jsonFiles, names, dumps), DeclarationStart(preamble, jsonFiles, names, dumps, k)))
         == DeclaredLists(jsonFiles, names[k..], dumps) + [AggregateDecl(names)]
    decreases |names| - k
  {
    if k == |names| {
      ScanAggregate(preamble, jsonFiles, names, dumps);
      assert names[k..] == [];
      assert DeclaredLists(jsonFiles, names[k..], dumps) == [];
    } else {
      ScanDeclaration(preamble, jsonFiles, names, dumps, k);
      ScanDeclarationsFrom(preamble, jsonFiles, names, dumps, k + 1);
      DeclaredListsFrom(jsonFiles, names, dumps, k);
      Assoc(if names[k] in jsonFiles then [Decl(names[k], dumps(jsonFiles[names[k]]))] else [],
            DeclaredLists(jsonFiles, names[k + 1..], dumps), [AggregateDecl(names)]);
    }
  }

  /** The preamble begins the generated module, and the first declaration starts right after it. */
  lemma PreambleFirst(preamble: string, jsonFiles: map<string, Value>, names: seq<string>, dumps: Value -> string)
    ensures DeclarationStart(preamble, jsonFiles, names, dumps, 0) == |preamble| <= |Generated(preamble, jsonFiles, names, dumps)|
    ensures Generated(preamble, jsonFiles, names, dumps)[..|preamble|] == preamble
  {
    assert names[..0] == [];
    GeneratedLayout(preamble, jsonFiles, names, dumps);
    Assoc(preamble, Declarations(jsonFiles, names, dumps), "\n  " + AggregateText(names) + Tail);
    AppendSlices(preamble, Declarations(jsonFiles, names, dumps) + ("\n  " + AggregateText(names) + Tail));
  }

  /**
   * Reading the generated module back: after a preamble that holds no `static`
   * and ends a line, `findall` recovers the declaration of every loaded list,
   * its name and its printed JSON, in selection order, and then the aggregate
   * and nothing else; no declaration swallows another.
   */
  lemma GeneratedScans(preamble: string, jsonFiles: map<string, Value>, names: seq<string>, dumps: Value -> string)
    requires NoStaticIn(preamble) && (preamble == [] || preamble[|preamble| - 1] == '\n')
    requires Recoverable(jsonFiles, names, dumps)
    ensures FindAll(Generated(preamble, jsonFiles, names, dumps))
         == DeclaredLists(jsonFiles, names, dumps) + [AggregateDecl(names)]
  {
    PreambleFirst(preamble, jsonFiles, names, dumps);
    NoMatchInPrefix(Generated(preamble, jsonFiles, names, dumps), preamble);
    ScanSkips(Generated(preamble, jsonFiles, names, dumps), 0, |preamble|);
    ScanDeclarationsFrom(preamble, jsonFiles, names, dumps, 0);
    assert names[0..] == names;
  }

  /**
   * Appending a piece that lacks one of the letters of `static` and ends in a
   * character that is not a word character keeps a text free of `static`.
   */
  lemma HeaderExtend(h: string, piece: string, k: nat)
    requires NoStaticIn(h) && (h == [] || !IsWordChar(h[|h| - 1]))
    requires k < 6 && Lacks(piece, k)
    requires piece != [] && !IsWordChar(piece[|piece| - 1])
    ensures NoStaticIn(h + piece) && !IsWordChar((h + piece)[|h + piece| - 1])
  {
    NoStaticWithout(piece, k);
    NoStaticJoin(h, piece);
  }

  /** `s` lacks the `k`-th letter of `static`. */
  predicate Lacks(s: string, k: nat)
    requires k < 6
  {
    forall i :: 0 <= i < |s| ==> s[i] != "static"[k]
  }

  /** The first lines of the header each lack one of the letters of `static`. */
  lemma HeaderOpeningLacks()
    ensures Lacks(HeaderStrict, 2) && Lacks(HeaderDefine, 0) && Lacks(HeaderEsModule, 4) && Lacks(HeaderVoid, 2)
  {
    forall i | 0 <= i < |HeaderStrict| ensures HeaderStrict[i] != 'a' {}
    forall i | 0 <= i < |HeaderDefine| ensures HeaderDefine[i] != 's' {}
    forall i | 0 <= i < |HeaderEsModule| ensures HeaderEsModule[i] != 'i' {}
    forall i | 0 <= i < |HeaderVoid| ensures HeaderVoid[i] != 'a' {}
  }

  /** The first `require` lines each lack one of the letters of `static`. */
  lemma HeaderRequiresLacks()
    ensures Lacks(HeaderPuerts, 2) && Lacks(HeaderUe, 0) && Lacks(HeaderInfo, 0) && Lacks(HeaderLog, 0)
  {
    forall i | 0 <= i < |HeaderPuerts| ensures HeaderPuerts[i] != 'a' {}
    forall i | 0 <= i < |HeaderUe| ensures HeaderUe[i] != 's' {}
    forall i | 0 <= i < |HeaderInfo| ensures HeaderInfo[i] != 's' {}
    forall i | 0 <= i < |HeaderLog| ensures HeaderLog[i] != 's' {}
  }

  /** The last lines of the header each lack one of the letters of `static`. */
  lemma HeaderClosingLacks()
    ensures Lacks(HeaderModManager, 0) && Lacks(HeaderModCustomTp, 2) && Lacks(HeaderBlank, 0) && Lacks(HeaderClass, 1)
  {
    forall i | 0 <= i < |HeaderModManager| ensures HeaderModManager[i] != 's' {}
    forall i | 0 <= i < |HeaderModCustomTp| ensures HeaderModCustomTp[i] != 'a' {}
    forall i | 0 <= i < |HeaderBlank| ensures HeaderBlank[i] != 's' {}
    forall i | 0 <= i < |HeaderClass| ensures HeaderClass[i] != 't' {}
  }

  /**
   * The header `combine_to_js` writes holds no `static` and ends a line: each
   * piece lacks a letter of `static` and ends in a character that is not a
   * word character.
   */
  lemma PreambleNoStatic()
    ensures NoStaticIn(Preamble) && Preamble[|Preamble| - 1] == '\n'
  {
    HeaderOpeningLacks();
    HeaderRequiresLacks();
    HeaderClosingLacks();
    NoStaticWithout(HeaderStrict, 2);
    var h := HeaderStrict;
    HeaderExtend(h, HeaderDefine, 0);
    h := h + HeaderDefine;
    HeaderExtend(h, HeaderEsModule, 4);
    h := h + HeaderEsModule;
    HeaderExtend(h, HeaderVoid, 2);
    h := h + HeaderVoid;
    HeaderExtend(h, HeaderPuerts, 2);
    h := h + HeaderPuerts;
    HeaderExtend(h, HeaderUe, 0);
    h := h + HeaderUe;
    HeaderExtend(h, HeaderInfo, 0);
    h := h + HeaderInfo;
    HeaderExtend(h, HeaderLog, 0);
    h := h + HeaderLog;
    HeaderExtend(h, HeaderModManager, 0);
    h := h + HeaderModManager;
    HeaderExtend(h, HeaderModCustomTp, 2);
    h := h + HeaderModCustomTp;
    HeaderExtend(h, HeaderBlank, 0);
    h := h + HeaderBlank;
    HeaderExtend(h, HeaderClass, 1);
    h := h + HeaderClass;
  }

  /**
   * The module `combine_to_js` writes reads back through `findall` as the
   * declaration of each loaded list, in selection order, and then the
   * aggregate naming every selected list.
   */
  lemma CombineScans(jsonFiles: map<string, Value>, selected: seq<string>, dumps: Value -> string)
    requires Recoverable(jsonFiles, ListNames(selected), dumps)
    ensures FindAll(Generated(Preamble, jsonFiles, ListNames(selected), dumps))
         == DeclaredLists(jsonFiles, ListNames(selected), dumps) + [AggregateDecl(ListNames(selected))]
  {
    PreambleNoStatic();
    GeneratedScans(Preamble, jsonFiles, ListNames(selected), dumps);
  }
}
