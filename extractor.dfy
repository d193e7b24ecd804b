/**
 * The extractor, `handle_TP_lists`: quote the reserved keys of a JavaScript
 * source, scan it for `static NAME = [ ... ];` declarations, and write each
 * list except the aggregate `CustomTpList` to `NAME.json` after stripping its
 * trailing commas and parsing it. A list that does not parse is reported and
 * skipped; the lists after it are still processed.
 *
 * The output directory is a map from file name to file text, handed in and
 * returned; the JSON parser and printer are parameters.
 */
module Extractor {
  import opened Wrappers
  import opened Json
  import opened Chars
  import opened KeyQuoting
  import opened DeclScan
  import opened CommaStrip
  import opened PathNames
  import opened SeqFacts

  /** The aggregate list of the generated module, never written as a file of its own. */
  const Reserved: string := "CustomTpList"

  /** The file a list is written to, relative to the output directory. */
  function FileName(name: string): string
  {
    name + ".json"
  }

  /** The state of the output directory and the names of the lists that did not parse. */
  datatype Outcome = Outcome(files: map<string, string>, errors: seq<string>)

  /** One iteration of the loop over the scanned lists. */
  function Step(o: Outcome, d: Decl, parse: string -> Option<Value>, dump: Value -> string): Outcome
  {
    if d.name == Reserved then o
    else match parse(StripTrailingCommas(d.literal))
      case Some(v) => Outcome(o.files[FileName(d.name) := dump(v)], o.errors)
      case None => Outcome(o.files, o.errors + [d.name])
  }

  /** The loop over `decls`, from the outcome `o`. */
  function RunFrom(o: Outcome, decls: seq<Decl>, parse: string -> Option<Value>, dump: Value -> string): Outcome
    decreases |decls|
  {
    if decls == [] then o else RunFrom(Step(o, decls[0], parse, dump), decls[1..], parse, dump)
  }

  /** The whole extractor over the text `content` and the directory `dir`. */
  function Extract(content: string, dir: map<string, string>,
                   parse: string -> Option<Value>, dump: Value -> string): Outcome
  {
    RunFrom(Outcome(dir, []), FindAll(QuoteKeys(content)), parse, dump)
  }

  /** The loop passes over the aggregate list, whatever its literal. */
  lemma ReservedSkipped(o: Outcome, literal: string, parse: string -> Option<Value>, dump: Value -> string)
    ensures Step(o, Decl(Reserved, literal), parse, dump) == o
  {
  }

  /** Running over two stretches of lists is running over the first, then the second. */
  lemma {:induction false} RunFromAppend(o: Outcome, a: seq<Decl>, b: seq<Decl>,
                                         parse: string -> Option<Value>, dump: Value -> string)
    ensures RunFrom(o, a + b, parse, dump) == RunFrom(RunFrom(o, a, parse, dump), b, parse, dump)
    decreases |a|
  {
    if a == [] {
      assert a + b == b;
    } else {
      assert (a + b)[0] == a[0] && (a + b)[1..] == a[1..] + b;
      RunFromAppend(Step(o, a[0], parse, dump), a[1..], b, parse, dump);
    }
  }

  lemma RunFromSingle(o: Outcome, d: Decl, parse: string -> Option<Value>, dump: Value -> string)
    ensures RunFrom(o, [d], parse, dump) == Step(o, d, parse, dump)
  {
    assert [d][1..] == [];
  }

  /** The extractor: the loop of `handle_TP_lists` over the scanned lists. */
  method HandleTpLists(content: string, dir: map<string, string>,
                       parse: string -> Option<Value>, dump: Value -> string)
    returns (files: map<string, string>, errors: seq<string>)
    ensures Outcome(files, errors) == Extract(content, dir, parse, dump)
  {
    var lists := FindAll(QuoteKeys(content));
    files, errors := dir, [];
    var i := 0;
    while i < |lists|
      invariant 0 <= i <= |lists|
      invariant Outcome(files, errors) == RunFrom(Outcome(dir, []), lists[..i], parse, dump)
    {
      var d := lists[i];
      ghost var before := Outcome(files, errors);
      PrefixSnoc(lists, i);
      RunFromAppend(Outcome(dir, []), lists[..i], [d], parse, dump);
      RunFromSingle(before, d, parse, dump);
      if d.name == Reserved {
        i := i + 1;
        continue;
      }
      var cleaned := StripTrailingCommas(d.literal);
      match parse(cleaned) {
        case Some(v) =>
          files := files[FileName(d.name) := dump(v)];
        case None =>
          errors := errors + [d.name];
      }
      assert Outcome(files, errors) == Step(before, d, parse, dump);
      i := i + 1;
    }
    assert lists[..|lists|] == lists;
  }

  // ---------------------------------------------------------------------------
  // Which files are written

  /** The list `d` is written: it is not the aggregate and its cleaned literal parses. */
  predicate IsWritten(d: Decl, parse: string -> Option<Value>)
  {
    d.name != Reserved && parse(StripTrailingCommas(d.literal)).Some?
  }

  /** The file the list `d` writes, if any. */
  function WriteOf(d: Decl, parse: string -> Option<Value>, dump: Value -> string): map<string, string>
  {
    if IsWritten(d, parse) then map[FileName(d.name) := dump(parse(StripTrailingCommas(d.literal)).value)]
    else map[]
  }

  /** Every file the lists write, a later write to the same file replacing an earlier one. */
  function Writes(decls: seq<Decl>, parse: string -> Option<Value>, dump: Value -> string): map<string, string>
    decreases |decls|
  {
    if decls == [] then map[] else WriteOf(decls[0], parse, dump) + Writes(decls[1..], parse, dump)
  }

  /** The names of the lists that do not parse, in order; the aggregate is never parsed. */
  function Failures(decls: seq<Decl>, parse: string -> Option<Value>): seq<string>
    decreases |decls|
  {
    if decls == [] then []
    else FailureOf(decls[0], parse) + Failures(decls[1..], parse)
  }

  /** The name `d` adds to the errors: its own when it is not the aggregate and does not parse. */
  function FailureOf(d: Decl, parse: string -> Option<Value>): seq<string>
  {
    if d.name != Reserved && parse(StripTrailingCommas(d.literal)).None? then [d.name] else []
  }

  /** One iteration overwrites the directory with the list's file and appends its failure. */
  lemma StepEffect(o: Outcome, d: Decl, parse: string -> Option<Value>, dump: Value -> string)
    ensures Step(o, d, parse, dump).files == o.files + WriteOf(d, parse, dump)
    ensures Step(o, d, parse, dump).errors == o.errors + FailureOf(d, parse)
  {
    if !IsWritten(d, parse) {
      assert o.files + map[] == o.files;
    }
    if FailureOf(d, parse) == [] {
      assert o.errors + [] == o.errors;
    }
  }

  lemma MapUnionAssoc(a: map<string, string>, b: map<string, string>, c: map<string, string>)
    ensures (a + b) + c == a + (b + c)
  {
  }

  /**
   * The loop leaves the directory it started from overwritten by the lists'
   * files, and appends the names of the lists that do not parse to the errors.
   */
  lemma {:induction false} RunFromEffect(o: Outcome, decls: seq<Decl>,
                                         parse: string -> Option<Value>, dump: Value -> string)
    ensures RunFrom(o, decls, parse, dump).files == o.files + Writes(decls, parse, dump)
    ensures RunFrom(o, decls, parse, dump).errors == o.errors + Failures(decls, parse)
    decreases |decls|
  {
    if decls == [] {
      assert o.files + map[] == o.files;
      assert o.errors + [] == o.errors;
    } else {
      var d := decls[0];
      var o' := Step(o, d, parse, dump);
      RunFromEffect(o', decls[1..], parse, dump);
      StepEffect(o, d, parse, dump);
      MapUnionAssoc(o.files, WriteOf(d, parse, dump), Writes(decls[1..], parse, dump));
      assert (o.errors + FailureOf(d, parse)) + Failures(decls[1..], parse)
          == o.errors + (FailureOf(d, parse) + Failures(decls[1..], parse));
    }
  }

  /** The extractor's directory is the starting one overwritten by the files of the lists. */
  lemma ExtractEffect(content: string, dir: map<string, string>,
                      parse: string -> Option<Value>, dump: Value -> string)
    ensures Extract(content, dir, parse, dump).files == dir + Writes(FindAll(QuoteKeys(content)), parse, dump)
    ensures Extract(content, dir, parse, dump).errors == Failures(FindAll(QuoteKeys(content)), parse)
  {
    RunFromEffect(Outcome(dir, []), FindAll(QuoteKeys(content)), parse, dump);
  }

  /** Two lists write the same file only when they have the same name. */
  lemma FileNameInjective(a: string, b: string)
    requires FileName(a) == FileName(b)
    ensures a == b
  {
    assert a == FileName(a)[..|a|];
    assert b == FileName(b)[..|b|];
  }

  /** A file is written exactly when some list of that name is written. */
  lemma {:induction false} WrittenIff(decls: seq<Decl>, name: string,
                                      parse: string -> Option<Value>, dump: Value -> string)
    ensures FileName(name) in Writes(decls, parse, dump)
      <==> exists k :: 0 <= k < |decls| && decls[k].name == name && IsWritten(decls[k], parse)
    decreases |decls|
  {
    if decls != [] {
      WrittenIff(decls[1..], name, parse, dump);
      if FileName(decls[0].name) == FileName(name) {
        FileNameInjective(decls[0].name, name);
      }
      if exists k :: 0 <= k < |decls| && decls[k].name == name && IsWritten(decls[k], parse) {
        var k :| 0 <= k < |decls| && decls[k].name == name && IsWritten(decls[k], parse);
        if k > 0 {
          assert decls[1..][k - 1] == decls[k];
        }
      }
      if exists k :: 0 <= k < |decls[1..]| && decls[1..][k].name == name && IsWritten(decls[1..][k], parse) {
        var k :| 0 <= k < |decls[1..]| && decls[1..][k].name == name && IsWritten(decls[1..][k], parse);
        assert decls[k + 1] == decls[1..][k];
      }
    }
  }

  /** The aggregate list is never written as a file. */
  lemma {:induction false} ReservedNeverWritten(decls: seq<Decl>, parse: string -> Option<Value>, dump: Value -> string)
    ensures FileName(Reserved) !in Writes(decls, parse, dump)
  {
    WrittenIff(decls, Reserved, parse, dump);
  }

  /**
   * A file holds the dump of the last list of its name that is written: a
   * later list of the same name replaces the file an earlier one wrote.
   */
  lemma {:induction false} LastWriteWins(decls: seq<Decl>, k: nat,
                                         parse: string -> Option<Value>, dump: Value -> string)
    requires k < |decls| && IsWritten(decls[k], parse)
    requires forall j :: k < j < |decls| ==> !(decls[j].name == decls[k].name && IsWritten(decls[j], parse))
    ensures FileName(decls[k].name) in Writes(decls, parse, dump)
    ensures Writes(decls, parse, dump)[FileName(decls[k].name)]
         == dump(parse(StripTrailingCommas(decls[k].literal)).value)
    decreases |decls|
  {
    var key := FileName(decls[k].name);
    var rest := decls[1..];
    if k == 0 {
      WrittenIff(rest, decls[0].name, parse, dump);
    } else {
      assert rest[k - 1] == decls[k];
      forall j | k - 1 < j < |rest|
        ensures !(rest[j].name == rest[k - 1].name && IsWritten(rest[j], parse))
      {
        assert rest[j] == decls[j + 1];
      }
      LastWriteWins(rest, k - 1, parse, dump);
    }
  }

  /**
   * A list that is not written (the aggregate, or one that does not parse)
   * changes no file: removing it leaves the written files as they are, so a
   * failure does not keep the later lists from being written.
   */
  lemma {:induction false} UnwrittenChangesNothing(a: seq<Decl>, d: Decl, b: seq<Decl>,
                                                   parse: string -> Option<Value>, dump: Value -> string)
    requires !IsWritten(d, parse)
    ensures Writes(a + [d] + b, parse, dump) == Writes(a + b, parse, dump)
    decreases |a|
  {
    if a == [] {
      assert a + [d] + b == [d] + b && ([d] + b)[1..] == b && a + b == b;
      assert Writes([d] + b, parse, dump) == map[] + Writes(b, parse, dump);
      assert map[] + Writes(b, parse, dump) == Writes(b, parse, dump);
    } else {
      assert (a + [d] + b)[0] == a[0] && (a + [d] + b)[1..] == a[1..] + [d] + b;
      assert (a + b)[0] == a[0] && (a + b)[1..] == a[1..] + b;
      UnwrittenChangesNothing(a[1..], d, b, parse, dump);
    }
  }

  /**
   * Running the extractor again on the same source into the directory it
   * produced changes nothing: every file it writes already holds that text.
   */
  lemma ExtractIdempotent(content: string, dir: map<string, string>,
                          parse: string -> Option<Value>, dump: Value -> string)
    ensures var once := Extract(content, dir, parse, dump);
      Extract(content, once.files, parse, dump).files == once.files
  {
    var w := Writes(FindAll(QuoteKeys(content)), parse, dump);
    ExtractEffect(content, dir, parse, dump);
    ExtractEffect(content, dir + w, parse, dump);
    assert (dir + w) + w == dir + w;
  }

  /** The aggregate's file, if the directory holds one, is left as it was. */
  lemma ExtractKeepsReservedFile(content: string, dir: map<string, string>,
                                 parse: string -> Option<Value>, dump: Value -> string)
    ensures var files := Extract(content, dir, parse, dump).files;
      (FileName(Reserved) in files <==> FileName(Reserved) in dir)
      && (FileName(Reserved) in dir ==> files[FileName(Reserved)] == dir[FileName(Reserved)])
  {
    ExtractEffect(content, dir, parse, dump);
    ReservedNeverWritten(FindAll(QuoteKeys(content)), parse, dump);
  }

  // ---------------------------------------------------------------------------
  // Names

  /** Every scanned list name is a non-empty word. */
  lemma ScannedNamesAreWords(t: string, k: nat)
    requires k < |FindAll(t)|
    ensures FindAll(t)[k].name != [] && AllWord(FindAll(t)[k].name)
  {
    var s := ScanFrom(t, 0)[k];
    MatchIsShaped(t, s.start);
  }

  /** A file named after a word is named back to that word. */
  lemma FileNameRoundTrip(name: string)
    requires name != [] && AllWord(name)
    ensures ListName(FileName(name)) == name
  {
    var ext := "json";
    assert '.' !in ext && '/' !in ext;
    assert FileName(name) == name + "." + ext;
    WordChars(name);
    assert name[0] != '.';
    assert '/' !in name;
    FileListName(name, ext);
  }

  /**
   * The file written for a scanned list is named back to the list's own name:
   * loading it and deriving its list name gives the name it was written under.
   */
  lemma ScannedNameRoundTrip(t: string, k: nat)
    requires k < |FindAll(t)|
    ensures ListName(FileName(FindAll(t)[k].name)) == FindAll(t)[k].name
  {
    ScannedNamesAreWords(t, k);
    FileNameRoundTrip(FindAll(t)[k].name);
  }
}
