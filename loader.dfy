/**
 * `load_json_files`: read every `.json` file of a directory into a map from
 * list name to JSON value. The list name of `NAME.json` is `NAME`; a later file
 * with the same list name replaces an earlier one.
 *
 * The directory listing (in the order the operating system returns it) and the
 * reading and parsing of one file are parameters. A file that does not parse
 * raises out of the loop, so the whole load fails: the model returns `None`.
 */
module Loader {
  import opened Wrappers
  import opened Json
  import opened PathNames
  import opened SeqFacts

  /** The file name ends in `.json`. */
  predicate IsJsonName(name: string)
  {
    |name| >= 5 && name[|name| - 5..] == ".json"
  }

  /** One iteration: a `.json` file is read into `m` under its list name. */
  function LoadOne(m: map<string, Value>, name: string, read: string -> Option<Value>): Option<map<string, Value>>
  {
    if !IsJsonName(name) then Some(m)
    else match read(name)
      case Some(v) => Some(m[StripExt(name) := v])
      case None => None
  }

  /** The loop over the listing, file by file in order. */
  function Loaded(listing: seq<string>, read: string -> Option<Value>): Option<map<string, Value>>
    decreases |listing|
  {
    if listing == [] then Some(map[])
    else match Loaded(listing[..|listing| - 1], read)
      case Some(m) => LoadOne(m, listing[|listing| - 1], read)
      case None => None
  }

  /** Once a file fails to parse, the load has failed whatever follows. */
  lemma {:induction false} FailureSticks(listing: seq<string>, i: nat, read: string -> Option<Value>)
    requires i <= |listing| && Loaded(listing[..i], read).None?
    ensures Loaded(listing, read).None?
    decreases |listing| - i
  {
    if i < |listing| {
      PrefixSnoc(listing, i);
      assert listing[..i + 1][..i] == listing[..i];
      FailureSticks(listing, i + 1, read);
    } else {
      assert listing[..i] == listing;
    }
  }

  /** `load_json_files` over a directory listing. */
  method LoadJsonFiles(listing: seq<string>, read: string -> Option<Value>) returns (r: Option<map<string, Value>>)
    ensures r == Loaded(listing, read)
  {
    var jsonFiles: map<string, Value> := map[];
    var i := 0;
    while i < |listing|
      invariant 0 <= i <= |listing|
      invariant Loaded(listing[..i], read) == Some(jsonFiles)
    {
      var fileName := listing[i];
      PrefixSnoc(listing, i);
      assert listing[..i + 1][..i] == listing[..i];
      if IsJsonName(fileName) {
        var listName := StripExt(fileName);
        match read(fileName) {
          case None =>
            FailureSticks(listing, i + 1, read);
            return None;
          case Some(v) =>
            jsonFiles := jsonFiles[listName := v];
        }
      }
      i := i + 1;
    }
    assert listing[..i] == listing;
    return Some(jsonFiles);
  }

  /** Listed position `k` holds a `.json` file of list name `key`. */
  predicate ListsAt(listing: seq<string>, k: int, key: string)
  {
    0 <= k < |listing| && IsJsonName(listing[k]) && StripExt(listing[k]) == key
  }

  /** Position `k` holds the last listed `.json` file of list name `key`. */
  predicate LastListed(listing: seq<string>, k: int, key: string)
  {
    ListsAt(listing, k, key) && forall j :: k < j < |listing| ==> !ListsAt(listing, j, key)
  }

  /** The load fails exactly when some listed `.json` file does not parse. */
  lemma {:induction false} LoadFailsIff(listing: seq<string>, read: string -> Option<Value>)
    ensures Loaded(listing, read).None?
      <==> exists k :: 0 <= k < |listing| && IsJsonName(listing[k]) && read(listing[k]).None?
    decreases |listing|
  {
    if listing != [] {
      var n := |listing| - 1;
      var front := listing[..n];
      LoadFailsIff(front, read);
      if exists k :: 0 <= k < |listing| && IsJsonName(listing[k]) && read(listing[k]).None? {
        var k :| 0 <= k < |listing| && IsJsonName(listing[k]) && read(listing[k]).None?;
        if k < n {
          assert front[k] == listing[k];
        }
      }
      if exists k :: 0 <= k < |front| && IsJsonName(front[k]) && read(front[k]).None? {
        var k :| 0 <= k < |front| && IsJsonName(front[k]) && read(front[k]).None?;
        assert listing[k] == front[k];
      }
    }
  }

  /** A successful load after the last file is that file loaded into the load before it. */
  lemma LoadedLastStep(listing: seq<string>, read: string -> Option<Value>)
    requires listing != [] && Loaded(listing, read).Some?
    ensures Loaded(listing[..|listing| - 1], read).Some?
    ensures LoadOne(Loaded(listing[..|listing| - 1], read).value, listing[|listing| - 1], read)
         == Loaded(listing, read)
  {
  }

  /** A list name is listed in a non-empty listing exactly when it is listed before the last file or by it. */
  lemma ListedBeforeOrLast(listing: seq<string>, front: seq<string>, key: string)
    requires listing != [] && front == listing[..|listing| - 1]
    ensures (exists k :: ListsAt(listing, k, key))
        <==> (exists k :: ListsAt(front, k, key)) || ListsAt(listing, |listing| - 1, key)
  {
    if exists k :: ListsAt(front, k, key) {
      var k :| ListsAt(front, k, key);
      assert front[k] == listing[k];
      assert ListsAt(listing, k, key);
    }
    if exists k :: ListsAt(listing, k, key) {
      var k :| ListsAt(listing, k, key);
      if k < |listing| - 1 {
        assert front[k] == listing[k];
        assert ListsAt(front, k, key);
      }
    }
  }

  /** The last file adds its list name, if it is a `.json` file, to the lists loaded before it. */
  lemma LoadedKeyStep(listing: seq<string>, read: string -> Option<Value>, key: string)
    requires listing != [] && Loaded(listing, read).Some?
    ensures Loaded(listing[..|listing| - 1], read).Some?
    ensures key in Loaded(listing, read).value
        <==> key in Loaded(listing[..|listing| - 1], read).value || ListsAt(listing, |listing| - 1, key)
  {
    var n := |listing| - 1;
    LoadedLastStep(listing, read);
    var m := Loaded(listing[..n], read).value;
    var name := listing[n];
    if IsJsonName(name) {
      assert read(name).Some?;
      assert Loaded(listing, read).value == m[StripExt(name) := read(name).value];
    } else {
      assert Loaded(listing, read).value == m;
    }
  }

  /** A successful load holds a list exactly when a `.json` file of that list name is listed. */
  lemma {:induction false} LoadedKeys(listing: seq<string>, read: string -> Option<Value>, key: string)
    requires Loaded(listing, read).Some?
    ensures key in Loaded(listing, read).value <==> exists k :: ListsAt(listing, k, key)
    decreases |listing|
  {
    if listing != [] {
      LoadedKeyStep(listing, read, key);
      LoadedKeys(listing[..|listing| - 1], read, key);
      ListedBeforeOrLast(listing, listing[..|listing| - 1], key);
    }
  }

  /** A list holds the value read from the last listed `.json` file of its name. */
  lemma {:induction false} LoadedLast(listing: seq<string>, read: string -> Option<Value>, k: int, key: string)
    requires Loaded(listing, read).Some? && LastListed(listing, k, key)
    ensures key in Loaded(listing, read).value && read(listing[k]).Some?
    ensures Loaded(listing, read).value[key] == read(listing[k]).value
    decreases |listing|
  {
    var n := |listing| - 1;
    var front := listing[..n];
    LoadedLastStep(listing, read);
    if k < n {
      assert !ListsAt(listing, n, key);
      assert front[k] == listing[k];
      forall j | k < j < |front|
        ensures !ListsAt(front, j, key)
      {
        assert front[j] == listing[j];
        assert !ListsAt(listing, j, key);
      }
      LoadedLast(front, read, k, key);
    }
  }

  /** A file that is not `.json` is not read. */
  lemma SkipsOtherFiles(listing: seq<string>, name: string, read: string -> Option<Value>)
    requires !IsJsonName(name)
    ensures Loaded(listing + [name], read) == Loaded(listing, read)
  {
    assert (listing + [name])[..|listing|] == listing;
  }
}
