# Teleport-list manager, modelled in Dafny

This project models the core of `app/util/TP_manager.py`. That module moves
teleport lists between two forms:

* a JavaScript module (`ModTpFile`) in which each list is a class field,
  `static NAME = [ ... ];`;
* a directory of `NAME.json` files, one per list.

Three operations are modelled.

* **Extractor** (`handle_TP_lists`). It puts double quotes around the bare
  keys `id`, `filename`, `name`, `x`, `y` and `z`. It then finds every
  `static NAME = [...];` declaration. Each list except the aggregate
  `CustomTpList` has its trailing commas stripped, is parsed, and is written
  to `NAME.json`. A list that does not parse is reported and skipped, and the
  lists after it are still processed.
* **Loader** (`load_json_files`). It reads every `.json` file of a directory
  into a map from list name to JSON value. A later file with the same list
  name replaces an earlier one. A file that does not parse makes the whole
  load fail.
* **Combiner** (`combine_to_js`). It regenerates the JavaScript module from a
  selection of list files. The module has a fixed preamble and one
  declaration per selected list that was loaded; a list that was not loaded
  gets a warning instead. Then comes the aggregate
  `static CustomTpList = [ this.NAME, ... ];` and a fixed closing.

The two regular-expression substitutions and `findall` become explicit
scanners:

* `KeyQuoting`: the key pattern with its word boundaries;
* `DeclScan`: the declaration pattern with its lazy body;
* `CommaStrip`: the two trailing-comma passes.

Each scanner is written position by position, as the regular-expression
engine walks the text. It is related by lemmas to declarative descriptions:

* the shape of a match;
* "no match was skipped";
* "exactly the commas and white space matched before a closing bracket or brace are deleted";
* "the text is kept up to quotes and white space".

Base names and extensions are in `PathNames`, which follows
`os.path.basename` and `os.path.splitext`, including their rule for hidden
files.

The extractor and the loader are loops that update a map. The combiner is a
loop that appends to a string. Each is a `method` with a `while` loop, proved
against a function that states the same loop as a fold. The lemmas then
state what that function means.

The following are parameters:

* the JSON parser and printer (`json.loads`, `json.dump`, `json.dumps`,
  `json.load`);
* the directory listing, in the order the operating system returns it;
* the directory the extractor writes to, a map from file name to text that
  is handed in and returned.

## Model

| member | source | states |
|---|---|---|
| KeyQuoting.KeyMatch | app/util/TP_manager.py:42-43 | a key match at a position needs the character before it to be a non-word character (or the start of the text), and is longer than the key word it starts with |
| KeyQuoting.KeyRewritten | app/util/TP_manager.py:42-49 | a reserved key after a non-word character, followed by optional white space and a colon, becomes `"key":`; the white space is dropped and scanning resumes after the colon |
| KeyQuoting.PlainWordCopied | app/util/TP_manager.py:42-49 | a whole word that is not a reserved key is copied unchanged, even before a colon, and the text after it is scanned as coming after a word character, so no key matches right after it |
| KeyQuoting.ReservedNoColonCopied | app/util/TP_manager.py:42-49 | a reserved key that is not followed by optional white space and a colon (as in `id = 1`, `name,` or `x]`) is copied unchanged, and so is the white space after it; the text after that run is then read as following white space, or following the key when there is none |
| KeyQuoting.QuotedKeyUnchanged | app/util/TP_manager.py:42-49 | a key that is already quoted no longer matches, so the text is left as it is |
| KeyQuoting.NoMatchAtNonWord | app/util/TP_manager.py:42-43 | no match starts at a character that is not a word character |
| KeyQuoting.QuoteKeysIdempotent | app/util/TP_manager.py:42-49 | quoting the keys of a text whose keys are already quoted changes nothing |
| KeyQuoting.QuoteKeysKeepsText | app/util/TP_manager.py:42-49 | with double quotes and white space removed, the quoted text equals the original text |
| DeclScan.CloseFrom | app/util/TP_manager.py:51 | the lazy body stops at the first `];` at or after the position, and finds none only when there is none |
| DeclScan.LiteralAt | app/util/TP_manager.py:51 | a literal match is at least `[];` long and ends inside the text |
| DeclScan.LiteralSound | app/util/TP_manager.py:51 | a matched literal runs from `[` to the first `];`; the captured literal is the bracketed body without the semicolon |
| DeclScan.ShapedMatches | app/util/TP_manager.py:51 | a well-shaped declaration is matched whole, with its own name and literal: `static`, white space, a word, optional white space around `=`, and a body with no `];` |
| DeclScan.MatchIsShaped | app/util/TP_manager.py:51 | every match is such a declaration, with the captured name and literal |
| DeclScan.DeclComplete | app/util/TP_manager.py:51 | after `static` and a white-space run, the match continues at the name |
| DeclScan.ScanFrom | app/util/TP_manager.py:52 | the scan records only real matches, left to right and without overlap |
| DeclScan.ScanMissesNothing | app/util/TP_manager.py:52 | no match starts anywhere the scan passed over outside a match |
| CommaStrip.CommaMatch | app/util/TP_manager.py:61-62 | a match starts with a comma, is at least two characters long and ends inside the text |
| CommaStrip.StripTrailingIsSubsequence | app/util/TP_manager.py:61-62 | the two passes only delete characters |
| CommaStrip.StripTrailingKeepsBrackets | app/util/TP_manager.py:61-62 | every character other than a comma or white space, every bracket and brace included, stays in order |
| CommaStrip.CoveredIsCommaOrSpace | app/util/TP_manager.py:61-62 | a character covered by a match of `,\s*` and the closing character is a comma or white space |
| CommaStrip.MatchCovers | app/util/TP_manager.py:61-62 | inside a match, exactly the comma and the white space before the closing character are covered, and the closing character is not |
| CommaStrip.StripKeepsUncovered | app/util/TP_manager.py:61-62 | a pass deletes exactly the covered characters, the comma and white space of each `,\s*` directly before the closing character, and keeps every other character, in order |
| CommaStrip.StripTrailingKeepsUncovered | app/util/TP_manager.py:61-62 | the two passes keep exactly the characters left uncovered by the `}` pass, then those left uncovered by the `]` pass in its result |
| CommaStrip.StripShortens | app/util/TP_manager.py:61-62 | a pass never lengthens the text, and it shortens it when a comma stands before the closing character |
| CommaStrip.StripUnchangedIff | app/util/TP_manager.py:61-62 | a pass leaves the text unchanged exactly when no comma stands before the closing character |
| CommaStrip.StripExample | app/util/TP_manager.py:61-62 | `[{"id":1,},]` becomes `[{"id":1}]`: braces are handled first, then brackets |
| CommaStrip.DoubleCommaLeavesOne | app/util/TP_manager.py:62 | two commas before a bracket leave one behind, and a second pass removes it, so one pass is not idempotent |
| Extractor.HandleTpLists | app/util/TP_manager.py:57-70 | the loop skips `CustomTpList`; writes each list that parses after comma stripping to `NAME.json`; and records each list that does not parse, going on with the rest |
| Extractor.ReservedSkipped | app/util/TP_manager.py:58-59 | a list named `CustomTpList` changes nothing, whatever its literal |
| Extractor.RunFromAppend | app/util/TP_manager.py:57 | running the loop over two stretches of lists is running it over the first, then the second |
| Extractor.StepEffect | app/util/TP_manager.py:57-70 | one iteration overwrites the directory with the list's file and appends the list's failure |
| Extractor.RunFromEffect | app/util/TP_manager.py:57-70 | the loop leaves the starting directory overwritten by the lists' files, and appends the names of the lists that do not parse, in order |
| Extractor.ExtractEffect | app/util/TP_manager.py:37-70 | the extractor's directory is the given one overwritten by the written lists' files; its errors are the failing lists |
| Extractor.FileNameInjective | app/util/TP_manager.py:66 | two lists write the same file only when they have the same name |
| Extractor.WrittenIff | app/util/TP_manager.py:57-68 | `NAME.json` is written exactly when some list of that name is not the aggregate and parses |
| Extractor.ReservedNeverWritten | app/util/TP_manager.py:58-59 | `CustomTpList.json` is never written |
| Extractor.ExtractKeepsReservedFile | app/util/TP_manager.py:58-59 | a `CustomTpList.json` already in the directory is left as it was, and none is created |
| Extractor.LastWriteWins | app/util/TP_manager.py:66-68 | a file holds the printed JSON of the last written list of its name |
| Extractor.UnwrittenChangesNothing | app/util/TP_manager.py:64-70 | a list that is skipped or fails to parse changes no file, so a failure does not stop the later lists from being written |
| Extractor.ExtractIdempotent | app/util/TP_manager.py:37-70 | extracting the same source again into the directory produced changes nothing |
| Extractor.ScannedNamesAreWords | app/util/TP_manager.py:51-52 | every scanned list name is a non-empty word |
| Extractor.ScannedNameRoundTrip | app/util/TP_manager.py:66 | the file written for a scanned list has that list's own name as its list name (as at line 77 and line 99) |
| PathNames.LastIndexOf | app/util/TP_manager.py:77 | the position found holds the character and no later position does; none is found only when the character is absent |
| PathNames.Basename | app/util/TP_manager.py:99 | the base name holds no `/` and is a suffix of the path |
| PathNames.ListNameInBasename | app/util/TP_manager.py:99 | a list name holds no `/` and is a prefix of the base name |
| PathNames.ListNameRoundTrip | app/util/TP_manager.py:99 | `dir/NAME.ext` is named `NAME` when the extension has no dot and the name is not made of dots only |
| PathNames.StripExtRoundTrip | app/util/TP_manager.py:77 | `NAME.ext` stripped of its extension is `NAME` under the same conditions |
| PathNames.HiddenFileKeepsName | app/util/TP_manager.py:77 | a base name whose only dots are leading ones, such as `.json`, keeps its whole name, as `splitext` treats a leading dot as part of a hidden file's name and not as an extension |
| PathNames.NoDotKeepsName | app/util/TP_manager.py:77 | a base name without a dot has no extension, so its list name is the whole base name |
| Loader.LoadJsonFiles | app/util/TP_manager.py:73-80 | the loop over the listing reads each `.json` file into the map under its list name, and fails at the first file that does not parse |
| Loader.FailureSticks | app/util/TP_manager.py:78-79 | once a file fails to parse, the load fails whatever files follow |
| Loader.LoadFailsIff | app/util/TP_manager.py:75-79 | the load fails exactly when some listed `.json` file does not parse |
| Loader.LoadedKeys | app/util/TP_manager.py:75-79 | a successful load holds a list name exactly when a `.json` file of that list name is listed |
| Loader.LoadedLast | app/util/TP_manager.py:77-79 | a list holds the value read from the last listed `.json` file of its name |
| Loader.SkipsOtherFiles | app/util/TP_manager.py:76 | a file not ending in `.json` is not read and changes nothing |
| Combiner.ListNames | app/util/TP_manager.py:99 | there is one list name per selected path |
| Combiner.Combine | app/util/TP_manager.py:83-117 | the loop emits the module built from the declarations of the loaded lists, the aggregate and the closing, and warns about the lists not loaded, in selection order |
| Combiner.FoundMissingPartition | app/util/TP_manager.py:98-104 | every selected list is either found or warned about, never both; a name is found exactly when it is selected and loaded (the found lists are the declared ones: DeclarationsAreFound, GeneratedScans) |
| Combiner.DeclarationsAreFound | app/util/TP_manager.py:98-102 | the declarations written are exactly those of the found lists, in selection order, each of them a loaded list, and nothing for a list not loaded |
| Combiner.AggregateCountsMissing | app/util/TP_manager.py:107-108 | the aggregate has one entry per declaration plus one per warning |
| Combiner.NoneMissingAggregateIsFound | app/util/TP_manager.py:98-108 | when every selected list was loaded, the aggregate names exactly the found lists, which are the declared ones, in selection order |
| Combiner.JoinOccurrences | app/util/TP_manager.py:107-108 | a character absent from every entry occurs in the join once per occurrence in each separator, so `",\n    ".join` of comma-free entries holds one comma fewer than there are entries |
| Combiner.JoinEntry | app/util/TP_manager.py:107-108 | entry `k` stands whole in the join, at the offset where the join of the entries before it and a separator end |
| Combiner.JoinOffsetsIncrease | app/util/TP_manager.py:107-108 | each entry is followed by one separator and then the next entry, so the entries stand in selection order |
| Combiner.AggregateEntries | app/util/TP_manager.py:107-113 | entry `k` of the aggregate is `this.` and the `k`-th selected name, and the entries are separated by exactly one comma fewer than there are selected lists |
| Combiner.DeclarationsPrefix | app/util/TP_manager.py:98-102 | the declarations of the first lists begin the declarations of all of them |
| Combiner.DeclarationScans | app/util/TP_manager.py:102 | a written declaration is matched whole by the declaration pattern, which recovers its name and printed JSON |
| Combiner.DeclarationInText | app/util/TP_manager.py:98-102 | the `k`-th list's declaration stands in the generated module where the earlier declarations end |
| Combiner.EmittedDeclarationScans | app/util/TP_manager.py:98-102 | the declaration pattern matches at the `static` of each written declaration, with the list's own name and the JSON it was printed with, and ends at its `];` |
| Combiner.AggregateScans | app/util/TP_manager.py:111-116 | the declaration pattern matches the aggregate whole at its `static`, named `CustomTpList`, and the extractor's loop passes over it without writing it |
| Combiner.GeneratedScans | app/util/TP_manager.py:98-116 | `findall` over the generated module returns the declaration of each loaded list, with its name and printed JSON, in selection order, then the aggregate, and nothing else, when no printed array holds `];` and the names are words, after any header that holds no `static` and ends a line |
| Combiner.PreambleNoStatic | app/util/TP_manager.py:85-96 | the fixed header holds no `static` anywhere and ends a line, so no declaration is found inside it |
| Combiner.CombineScans | app/util/TP_manager.py:83-117 | `findall` over the module `combine_to_js` writes, fixed header included, returns the declaration of each loaded list in selection order, then the aggregate, and nothing else, under the same conditions on the printed arrays and names |

## Left out

- File I/O is not modelled: `open`, `read`, `write`, `os.makedirs`, `os.path.exists` and `os.listdir`. The files the extractor writes are a map it returns. The loader's listing and reader are parameters. The combiner returns its text instead of writing it.
- `resource_path` and `unzip_file` are not part of this model, because they only touch the file system and the packaging environment.
- The JSON library is a parameter. Its parsing and pretty-printing (`indent=4`, `ensure_ascii=False`) are not modelled, and neither is its `JSONDecodeError` message. A parse failure is `None`.
- Only the list names of the printed messages are kept. The message texts and the console output are left out.
- `\w` is the ASCII class of letters, digits and `_`. `\s` is ASCII white space plus the separators U+001C to U+001F. Python's Unicode letters and digits, and its white space outside these (such as U+0085 and U+00A0), are not modelled.
- Paths use `/` as the only separator, as `posixpath` does. The Windows `\` separator and drive letters are not modelled.
- The loader's exception is not modelled. When one file does not parse, the loader models the whole load as failing (`None`), where Python would raise out of the function.
- The aggregate names every selected list, loaded or not, so a list that was not loaded leaves a dangling `this.NAME` in the generated module; `AggregateCountsMissing` states this.
- Combiner.EmittedDeclarationScans: states the read-back before key quoting. The re-extraction of a generated module also quotes keys in the printed JSON, and that interaction is not modelled.
- GeneratedScans: also states the read-back before key quoting. It assumes that each printed list is an array holding no `];` before its end, and that each loaded list's name is a word. A printed string holding `];` would end that declaration early, and a printed `static NAME = [` could then start a new one; those texts are not covered.
- The round trip of values from extraction to a JSON file, to loading, to combining is not stated. The parser, the printers and the loader's reader are independent parameters, and the reader is not tied to the files the extractor writes.
- Combiner.AggregateScans: only covers selected names that hold no `]`.
