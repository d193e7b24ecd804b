/**
 * How a list name is derived from a path: the base name of the path with its
 * extension removed, as `os.path.splitext(os.path.basename(path))[0]` does
 * with `/` as the only separator.
 *
 * `splitext` cuts at the last `.` only when some character before it, in the
 * base name, is not a `.` itself: a leading dot marks a hidden file, not an
 * extension, so `.json` keeps its whole name.
 */
module PathNames {
  import opened Wrappers

  /** The position of the last `c` in `s`. */
  function LastIndexOf(s: string, c: char): (r: Option<nat>)
    ensures r.Some? ==> r.value < |s| && s[r.value] == c && forall j :: r.value < j < |s| ==> s[j] != c
    ensures r.None? ==> c !in s
  {
    if s == [] then None
    else if s[|s| - 1] == c then Some(|s| - 1)
    else LastIndexOf(s[..|s| - 1], c)
  }

  /** Every character of `s` is a dot (true of the empty string). */
  predicate AllDots(s: string)
  {
    forall i :: 0 <= i < |s| ==> s[i] == '.'
  }

  /** The part of `path` after its last `/`. */
  function Basename(path: string): (r: string)
    ensures '/' !in r
    ensures |r| <= |path| && r == path[|path| - |r|..]
  {
    match LastIndexOf(path, '/')
    case None => path
    case Some(i) => path[i + 1..]
  }

  /** The root of a base name: the name without its extension, if it has one. */
  function StripExt(name: string): string
  {
    match LastIndexOf(name, '.')
    case Some(d) => if AllDots(name[..d]) then name else name[..d]
    case None => name
  }

  /** The list name of a path. */
  function ListName(path: string): string
  {
    StripExt(Basename(path))
  }

  /** A list name is a prefix of the base name and holds no `/`. */
  lemma ListNameInBasename(path: string)
    ensures '/' !in ListName(path)
    ensures |ListName(path)| <= |Basename(path)| && ListName(path) == Basename(path)[..|ListName(path)|]
  {
    var base := Basename(path);
    match LastIndexOf(base, '.')
    case Some(d) =>
      assert base[..d] == base[..d];
    case None =>
  }

  /** A name without `/` is its own base name. */
  lemma BasenameOfName(name: string)
    requires '/' !in name
    ensures Basename(name) == name
  {
  }

  /** The base name of a path in a directory is the part after the directory's separator. */
  lemma BasenameInDir(dir: string, name: string)
    requires '/' !in name
    ensures Basename(dir + "/" + name) == name
  {
    var path := dir + "/" + name;
    assert path[|dir|] == '/';
    var i := LastIndexOf(path, '/').value;
    assert i == |dir|;
    assert path[|dir| + 1..] == name;
  }

  /**
   * Naming a file `name.ext` gives back `name`, provided the extension has no
   * dot and the name is not made of dots only.
   */
  lemma StripExtRoundTrip(name: string, ext: string)
    requires '.' !in ext && !AllDots(name)
    ensures StripExt(name + "." + ext) == name
  {
    var file := name + "." + ext;
    assert file[|name|] == '.';
    var d := LastIndexOf(file, '.').value;
    assert d == |name|;
    assert file[..d] == name;
  }

  /** A file name `name.ext` with no directory part is named `name`. */
  lemma FileListName(name: string, ext: string)
    requires '/' !in name && '/' !in ext && '.' !in ext && !AllDots(name)
    ensures ListName(name + "." + ext) == name
  {
    var file := name + "." + ext;
    assert '/' !in file by {
      forall i | 0 <= i < |file|
        ensures file[i] != '/'
      {
        if i < |name| {
          assert file[i] == name[i];
        } else if i > |name| {
          assert file[i] == ext[i - |name| - 1];
        }
      }
    }
    BasenameOfName(file);
    StripExtRoundTrip(name, ext);
  }

  /** A file in a directory is named by its name without the extension. */
  lemma ListNameRoundTrip(dir: string, name: string, ext: string)
    requires '/' !in name && '/' !in ext && '.' !in ext && !AllDots(name)
    ensures ListName(dir + "/" + name + "." + ext) == name
  {
    assert dir + "/" + name + "." + ext == dir + "/" + (name + "." + ext);
    assert '/' !in name + "." + ext;
    BasenameInDir(dir, name + "." + ext);
    StripExtRoundTrip(name, ext);
  }

  /**
   * A hidden file keeps its whole name: when the only dots of a base name are
   * its leading ones, as in `.json` or `..json`, there is no extension to strip.
   */
  lemma HiddenFileKeepsName(dots: string, w: string)
    requires dots != [] && AllDots(dots) && '.' !in w
    ensures StripExt(dots + w) == dots + w
  {
    var s := dots + w;
    assert s[|dots| - 1] == '.';
    var d := LastIndexOf(s, '.').value;
    assert d == |dots| - 1;
    assert s[..d] == dots[..d];
  }

  /** A base name without a dot has no extension and is its own list name root. */
  lemma NoDotKeepsName(name: string)
    requires '.' !in name
    ensures StripExt(name) == name
  {
  }
}
