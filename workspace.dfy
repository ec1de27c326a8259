/** The part of the file system the publishing script touches, as a value:
    regular files by path, and the directories it has created. Paths are
    lists of components relative to the directory that holds the script. */
module Workspace {

  datatype Option<T> = None | Some(value: T)

  type Path = seq<string>

  /** `CACHE` and `PROJECT` of the script, and its template and index
      documents, all below its `SOURCE` directory `source`. */
  const Cache: Path := ["source", "cache"]
  const Notes: Path := ["source", "notes"]
  const TemplatePath: Path := ["source", "index.template.md"]
  const IndexPath: Path := ["source", "index.md"]

  datatype FileSystem = FileSystem(files: map<Path, string>, dirs: set<Path>) {

    /** `os.makedirs(p, exist_ok=True)` */
    function MakeDirs(p: Path): FileSystem {
      this.(dirs := dirs + {p})
    }

    /** `shutil.copy(src, dst)`: the bytes of `src` become those of `dst`. */
    function Copy(src: Path, dst: Path): FileSystem
      requires src in files
    {
      this.(files := files[dst := files[src]])
    }

    /** `open(p, 'w').write(text)` */
    function Write(p: Path, text: string): FileSystem {
      this.(files := files[p := text])
    }
  }

  /** After `MakeDirs(p)`, `p` is a directory whether or not it was before;
      no file changes. */
  lemma MakeDirsEffect(fs: FileSystem, p: Path)
    ensures fs.MakeDirs(p).files == fs.files
    ensures forall q :: q in fs.MakeDirs(p).dirs <==> q in fs.dirs || q == p
  {
  }

  /** After `Copy(src, dst)`, `dst` holds what `src` holds, whatever it held
      before; every other path and the directories are as they were. */
  lemma CopyEffect(fs: FileSystem, src: Path, dst: Path)
    requires src in fs.files
    ensures Lookup(fs.Copy(src, dst).files, dst) == Lookup(fs.files, src)
    ensures forall q :: q != dst ==> Lookup(fs.Copy(src, dst).files, q) == Lookup(fs.files, q)
    ensures fs.Copy(src, dst).dirs == fs.dirs
  {
  }

  /** After `Write(p, text)`, `p` holds `text`, whatever it held before; every
      other path and the directories are as they were. */
  lemma WriteEffect(fs: FileSystem, p: Path, text: string)
    ensures Lookup(fs.Write(p, text).files, p) == Some(text)
    ensures forall q :: q != p ==> Lookup(fs.Write(p, text).files, q) == Lookup(fs.files, q)
    ensures fs.Write(p, text).dirs == fs.dirs
  {
  }

  /** The contents of `p`, if it is a file. */
  function Lookup(m: map<Path, string>, p: Path): Option<string> {
    if p in m then Some(m[p]) else None
  }

  /** The staging tree is everything below `Cache`. */
  predicate InCache(p: Path) {
    Cache <= p
  }

  /** The template and the index live beside the staging tree, not in it. */
  lemma TemplateOutsideCache()
    ensures !InCache(TemplatePath) && !InCache(IndexPath)
  {
    assert TemplatePath[1] != Cache[1] && IndexPath[1] != Cache[1];
  }

  /** `a` and `b` agree everywhere outside the staging tree. */
  ghost predicate SameOutsideCache(a: map<Path, string>, b: map<Path, string>) {
    forall p :: !InCache(p) ==> Lookup(a, p) == Lookup(b, p)
  }

  /** Two file maps with the same contents at every path are equal. */
  lemma LookupExtensional(a: map<Path, string>, b: map<Path, string>)
    requires forall p :: Lookup(a, p) == Lookup(b, p)
    ensures a == b
  {
    forall p | p in a ensures p in b && a[p] == b[p] {
      assert Lookup(a, p) == Lookup(b, p);
    }
    forall p | p in b ensures p in a {
      assert Lookup(a, p) == Lookup(b, p);
    }
  }
}
