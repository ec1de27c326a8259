/** `update_doc`: walks the note folders in listing order and, for every
    folder that has a `README.md`, stages its `.md` and `.rst` documents and a
    rewritten copy of the README under `source/cache/<folder>/`, collecting the
    table of contents on the way.

    The directory listing and the two glob results of each folder are given:
    their order is whatever the operating system returns. */
module Collector {
  import opened Text
  import opened Workspace

  const Readme := "README.md"
  const Token := "__TOC__"

  function NotesPath(folder: string, name: string): Path {
    Notes + [folder, name]
  }

  function CacheDir(folder: string): Path {
    Cache + [folder]
  }

  function CachePath(folder: string, name: string): Path {
    Cache + [folder, name]
  }

  /** `f'{folder}.md'`, the name of a folder's staged entry document. */
  function EntryName(folder: string): string {
    folder + ".md"
  }

  /** `os.path.exists(os.path.join(PROJECT, folder, 'README.md'))` */
  predicate HasReadme(fs: FileSystem, folder: string) {
    NotesPath(folder, Readme) in fs.files
  }

  /** `os.path.join(os.path.basename(CACHE), folder, f'{folder}.md')`: the
      staged entry document's path relative to `source`. */
  function TocEntry(folder: string): (entry: string)
    ensures entry == "cache/" + folder + "/" + folder + ".md"
  {
    var parts := [Cache[|Cache| - 1], folder, EntryName(folder)];
    assert parts[1..] == [folder, EntryName(folder)] && parts[1..][1..] == [EntryName(folder)];
    assert Join(parts[1..], "/") == folder + "/" + EntryName(folder);
    assert Cache[|Cache| - 1] == "cache";
    assert Join(parts, "/") == "cache" + "/" + (folder + "/" + (folder + ".md"));
    Join(parts, "/")
  }

  /** `[f for f in glob.iglob('*.md') if not f.endswith('README.md')]` */
  function NonReadme(md: seq<string>): (kept: seq<string>)
    ensures |kept| <= |md|
    ensures forall n :: n in kept <==> n in md && !EndsWith(n, Readme)
  {
    if md == [] then []
    else if EndsWith(md[0], Readme) then NonReadme(md[1..])
    else [md[0]] + NonReadme(md[1..])
  }

  /** The filter distributes over concatenation: it keeps the names it keeps
      in the order the glob gave them. */
  lemma {:induction false} NonReadmeConcat(a: seq<string>, b: seq<string>)
    ensures NonReadme(a + b) == NonReadme(a) + NonReadme(b)
    decreases |a|
  {
    if a == [] {
      assert a + b == b;
    } else {
      assert (a + b)[0] == a[0] && (a + b)[1..] == a[1..] + b;
      NonReadmeConcat(a[1..], b);
    }
  }

  /** Whatever surrounds a name, it is kept, in its place, exactly when it does
      not end in `README.md`. */
  lemma NonReadmeKeepsOrder(a: seq<string>, n: string, b: seq<string>)
    ensures NonReadme(a + [n] + b)
            == NonReadme(a) + (if EndsWith(n, Readme) then [] else [n]) + NonReadme(b)
  {
    var kept: seq<string> := if EndsWith(n, Readme) then [] else [n];
    assert [n][1..] == [];
    assert NonReadme([n]) == kept + NonReadme([]);
    NonReadmeConcat(a, [n]);
    NonReadmeConcat(a + [n], b);
  }

  /** The documents staged beside the README: the `.md` names that do not end
      in `README.md`, in glob order, then every `.rst` name, in glob order. */
  function SelectFiles(md: seq<string>, rst: seq<string>): (files: seq<string>)
    ensures forall n :: n in files <==> (n in md && !EndsWith(n, Readme)) || n in rst
    ensures |rst| <= |files| <= |md| + |rst| && files[|files| - |rst|..] == rst
    ensures files[..|files| - |rst|] == NonReadme(md)
  {
    NonReadme(md) + rst
  }

  /** The README text with every `__TOC__` replaced by the newline-joined list
      of staged documents. */
  function Rewrite(readme: string, files: seq<string>): string {
    ReplaceAll(readme, Token, Join(files, "\n"))
  }

  /** Every document a folder's globs name exists in that folder. */
  predicate GlobbedExist(fs: FileSystem, folder: string, md: seq<string>, rst: seq<string>) {
    forall n :: n in SelectFiles(md, rst) ==> NotesPath(folder, n) in fs.files
  }

  predicate GlobsValid(fs: FileSystem, folders: seq<string>,
                       mdGlob: string -> seq<string>, rstGlob: string -> seq<string>)
  {
    forall f :: f in folders && HasReadme(fs, f) ==> GlobbedExist(fs, f, mdGlob(f), rstGlob(f))
  }

  /** `p` is `CachePath(folder, n)` for some `n`. */
  predicate InFolderCache(p: Path, folder: string) {
    |p| == |Cache| + 2 && CacheDir(folder) <= p
  }

  lemma FolderCacheShape(p: Path, folder: string)
    requires InFolderCache(p, folder)
    ensures p == CachePath(folder, p[|Cache| + 1])
  {
  }

  lemma NotesOutsideCache(folder: string, name: string)
    ensures !InCache(NotesPath(folder, name))
  {
    assert NotesPath(folder, name)[1] == "notes" != "cache" == Cache[1];
  }

  lemma NotesAgree(a: map<Path, string>, b: map<Path, string>, folder: string, name: string)
    requires SameOutsideCache(a, b)
    ensures Lookup(a, NotesPath(folder, name)) == Lookup(b, NotesPath(folder, name))
    ensures NotesPath(folder, name) in a <==> NotesPath(folder, name) in b
  {
    NotesOutsideCache(folder, name);
  }

  // ---------------------------------------------------------------------
  // The file-system effect of one folder, as functions of the state before.

  /** `for file in files: shutil.copy(file, os.path.join(CACHE, folder, file))`,
      reading from the folder's own directory. */
  function CopyAll(fs: FileSystem, folder: string, files: seq<string>): (r: FileSystem)
    requires forall n :: n in files ==> NotesPath(folder, n) in fs.files
    ensures r.dirs == fs.dirs
    ensures forall n :: n in files ==>
              Lookup(r.files, CachePath(folder, n)) == Lookup(fs.files, NotesPath(folder, n))
    ensures forall p :: !(InFolderCache(p, folder) && p[|Cache| + 1] in files) ==>
              Lookup(r.files, p) == Lookup(fs.files, p)
    decreases |files|
  {
    if files == [] then fs
    else
      var init, last := files[..|files| - 1], files[|files| - 1];
      var s := CopyAll(fs, folder, init);
      NotesOutsideCache(folder, last);
      assert Lookup(s.files, NotesPath(folder, last)) == Lookup(fs.files, NotesPath(folder, last));
      s.Copy(NotesPath(folder, last), CachePath(folder, last))
  }

  /** What `CachePath(folder, name)` holds once `folder` has been processed
      from state `fs`: the rewritten README under `<folder>.md`, a copy of each
      staged document under its own name, and otherwise what was there. */
  function StagedFile(fs: FileSystem, folder: string, files: seq<string>, name: string): Option<string>
    requires HasReadme(fs, folder)
    requires forall n :: n in files ==> NotesPath(folder, n) in fs.files
  {
    if name == EntryName(folder) then Some(Rewrite(fs.files[NotesPath(folder, Readme)], files))
    else if name in files then Some(fs.files[NotesPath(folder, name)])
    else Lookup(fs.files, CachePath(folder, name))
  }

  /** One iteration of the loop of `update_doc`. */
  function ProcessFolder(fs: FileSystem, folder: string, md: seq<string>, rst: seq<string>): (r: FileSystem)
    requires HasReadme(fs, folder) ==> GlobbedExist(fs, folder, md, rst)
    ensures r.dirs == if HasReadme(fs, folder) then fs.dirs + {CacheDir(folder)} else fs.dirs
    ensures HasReadme(fs, folder) ==> forall name ::
              Lookup(r.files, CachePath(folder, name)) == StagedFile(fs, folder, SelectFiles(md, rst), name)
    ensures forall p :: !(HasReadme(fs, folder) && InFolderCache(p, folder)) ==>
              Lookup(r.files, p) == Lookup(fs.files, p)
  {
    if !HasReadme(fs, folder) then fs
    else
      var files := SelectFiles(md, rst);
      var copied := CopyAll(fs.MakeDirs(CacheDir(folder)), folder, files);
      var source := NotesPath(folder, Readme);
      NotesOutsideCache(folder, Readme);
      assert Lookup(copied.files, source) == Lookup(fs.files, source);
      var r := copied.Write(CachePath(folder, EntryName(folder)), Rewrite(copied.files[source], files));
      assert forall name :: Lookup(r.files, CachePath(folder, name)) == StagedFile(fs, folder, files, name) by {
        forall name ensures Lookup(r.files, CachePath(folder, name)) == StagedFile(fs, folder, files, name) {
          if name != EntryName(folder) && name !in files {
            assert !(InFolderCache(CachePath(folder, name), folder) && CachePath(folder, name)[|Cache| + 1] in files);
          }
        }
      }
      assert forall p :: !InFolderCache(p, folder) ==> Lookup(r.files, p) == Lookup(fs.files, p) by {
        forall p | !InFolderCache(p, folder) ensures Lookup(r.files, p) == Lookup(fs.files, p) {
          assert p != CachePath(folder, EntryName(folder));
        }
      }
      r
  }

  // ---------------------------------------------------------------------
  // The whole loop, as functions of the listing.

  /** The set of staging directories `update_doc` creates. */
  function ReadmeDirs(fs: FileSystem, folders: seq<string>): set<Path> {
    set f | f in folders && HasReadme(fs, f) :: CacheDir(f)
  }

  /** The file system after `update_doc` has processed `folders`. The notes
      tree, and everything else outside the staging tree, is never written. */
  function Collect(fs: FileSystem, folders: seq<string>,
                   mdGlob: string -> seq<string>, rstGlob: string -> seq<string>): (r: FileSystem)
    requires GlobsValid(fs, folders, mdGlob, rstGlob)
    ensures SameOutsideCache(fs.files, r.files)
    ensures r.dirs == fs.dirs + ReadmeDirs(fs, folders)
    decreases |folders|
  {
    if folders == [] then fs
    else
      var init, last := folders[..|folders| - 1], folders[|folders| - 1];
      var s := Collect(fs, init, mdGlob, rstGlob);
      NotesAgree(fs.files, s.files, last, Readme);
      assert HasReadme(s, last) ==> GlobbedExist(s, last, mdGlob(last), rstGlob(last)) by {
        if HasReadme(s, last) {
          forall n | n in SelectFiles(mdGlob(last), rstGlob(last)) ensures NotesPath(last, n) in s.files {
            NotesAgree(fs.files, s.files, last, n);
          }
        }
      }
      var r := ProcessFolder(s, last, mdGlob(last), rstGlob(last));
      assert SameOutsideCache(fs.files, r.files) by {
        forall p | !InCache(p) ensures Lookup(fs.files, p) == Lookup(r.files, p) {
          assert !InFolderCache(p, last);
        }
      }
      assert folders == init + [last];
      assert ReadmeDirs(fs, folders) == ReadmeDirs(fs, init) + (if HasReadme(fs, last) then {CacheDir(last)} else {});
      r
  }

  /** `toc` after `update_doc` has processed `folders`. */
  function Toc(fs: FileSystem, folders: seq<string>): (toc: seq<string>)
    ensures |toc| <= |folders|
    decreases |folders|
  {
    if folders == [] then []
    else
      var init, last := folders[..|folders| - 1], folders[|folders| - 1];
      Toc(fs, init) + if HasReadme(fs, last) then [TocEntry(last)] else []
  }

  // ---------------------------------------------------------------------
  // The loop itself.

  /** `update_doc()`: the listing, the glob results and the file system are
      parameters; the result is the table of contents and the new file system. */
  method UpdateDoc(fs: FileSystem, folders: seq<string>,
                   mdGlob: string -> seq<string>, rstGlob: string -> seq<string>)
    returns (toc: seq<string>, fs': FileSystem)
    requires GlobsValid(fs, folders, mdGlob, rstGlob)
    ensures toc == Toc(fs, folders)
    ensures fs' == Collect(fs, folders, mdGlob, rstGlob)
  {
    toc, fs' := [], fs;
    var i := 0;
    while i < |folders|
      invariant 0 <= i <= |folders|
      invariant GlobsValid(fs, folders[..i], mdGlob, rstGlob)
      invariant toc == Toc(fs, folders[..i])
      invariant fs' == Collect(fs, folders[..i], mdGlob, rstGlob)
    {
      var folder := folders[i];
      var source := NotesPath(folder, Readme);
      var target := CachePath(folder, EntryName(folder));
      ghost var prev := fs';
      CollectStep(fs, folders, mdGlob, rstGlob, i);
      NotesAgree(fs.files, fs'.files, folder, Readme);
      if source in fs'.files {
        fs' := fs'.MakeDirs(CacheDir(folder));
        toc := toc + [TocEntry(folder)];
        var files := SelectFiles(mdGlob(folder), rstGlob(folder));
        ghost var before := fs';
        forall n | n in files ensures NotesPath(folder, n) in before.files {
          NotesAgree(fs.files, before.files, folder, n);
        }
        var j := 0;
        while j < |files|
          invariant 0 <= j <= |files|
          invariant fs' == CopyAll(before, folder, files[..j])
        {
          CopyStep(before, folder, files, j);
          fs' := fs'.Copy(NotesPath(folder, files[j]), CachePath(folder, files[j]));
          j := j + 1;
        }
        assert files[..|files|] == files;
        assert Lookup(fs'.files, source) == Lookup(before.files, source);
        fs' := fs'.Write(target, Rewrite(fs'.files[source], files));
        assert fs' == ProcessFolder(prev, folder, mdGlob(folder), rstGlob(folder));
      }
      i := i + 1;
    }
    assert folders[..i] == folders;
  }

  /** `CopyAll` over one more document. */
  lemma CopyStep(fs: FileSystem, folder: string, files: seq<string>, j: nat)
    requires forall n :: n in files ==> NotesPath(folder, n) in fs.files
    requires j < |files|
    ensures NotesPath(folder, files[j]) in CopyAll(fs, folder, files[..j]).files
    ensures CopyAll(fs, folder, files[..j + 1])
            == CopyAll(fs, folder, files[..j]).Copy(NotesPath(folder, files[j]), CachePath(folder, files[j]))
  {
    var pre := files[..j + 1];
    assert pre[..|pre| - 1] == files[..j] && pre[|pre| - 1] == files[j];
    NotesOutsideCache(folder, files[j]);
    assert Lookup(CopyAll(fs, folder, files[..j]).files, NotesPath(folder, files[j]))
           == Lookup(fs.files, NotesPath(folder, files[j]));
  }

  /** `Collect` and `Toc` over one more folder of the listing. */
  lemma CollectStep(fs: FileSystem, folders: seq<string>,
                    mdGlob: string -> seq<string>, rstGlob: string -> seq<string>, i: nat)
    requires GlobsValid(fs, folders, mdGlob, rstGlob) && i < |folders|
    ensures GlobsValid(fs, folders[..i], mdGlob, rstGlob)
    ensures GlobsValid(fs, folders[..i + 1], mdGlob, rstGlob)
    ensures HasReadme(Collect(fs, folders[..i], mdGlob, rstGlob), folders[i])
            ==> GlobbedExist(Collect(fs, folders[..i], mdGlob, rstGlob), folders[i], mdGlob(folders[i]), rstGlob(folders[i]))
    ensures Collect(fs, folders[..i + 1], mdGlob, rstGlob)
            == ProcessFolder(Collect(fs, folders[..i], mdGlob, rstGlob), folders[i], mdGlob(folders[i]), rstGlob(folders[i]))
    ensures Toc(fs, folders[..i + 1])
            == Toc(fs, folders[..i]) + if HasReadme(fs, folders[i]) then [TocEntry(folders[i])] else []
  {
    var pre := folders[..i + 1];
    assert pre[..|pre| - 1] == folders[..i] && pre[|pre| - 1] == folders[i];
    var s := Collect(fs, folders[..i], mdGlob, rstGlob);
    NotesAgree(fs.files, s.files, folders[i], Readme);
    if HasReadme(s, folders[i]) {
      forall n | n in SelectFiles(mdGlob(folders[i]), rstGlob(folders[i])) ensures NotesPath(folders[i], n) in s.files {
        NotesAgree(fs.files, s.files, folders[i], n);
      }
    }
  }

  // ---------------------------------------------------------------------
  // The staging tree after the loop, path by path.

  /** What `update_doc` leaves at `p`: for a folder of the listing that has a
      README, `StagedFile` of that folder; everywhere else, what was there. */
  function Expected(fs: FileSystem, folders: seq<string>,
                    mdGlob: string -> seq<string>, rstGlob: string -> seq<string>, p: Path): Option<string>
    requires GlobsValid(fs, folders, mdGlob, rstGlob)
  {
    if |p| == |Cache| + 2 && Cache <= p && p[|Cache|] in folders && HasReadme(fs, p[|Cache|]) then
      var f := p[|Cache|];
      StagedFile(fs, f, SelectFiles(mdGlob(f), rstGlob(f)), p[|Cache| + 1])
    else Lookup(fs.files, p)
  }

  lemma {:induction false} CollectAt(fs: FileSystem, folders: seq<string>,
                                     mdGlob: string -> seq<string>, rstGlob: string -> seq<string>, p: Path)
    requires GlobsValid(fs, folders, mdGlob, rstGlob)
    ensures Lookup(Collect(fs, folders, mdGlob, rstGlob).files, p) == Expected(fs, folders, mdGlob, rstGlob, p)
    decreases |folders|
  {
    if folders != [] {
      var init, last := folders[..|folders| - 1], folders[|folders| - 1];
      assert folders == init + [last];
      var s := Collect(fs, init, mdGlob, rstGlob);
      CollectAt(fs, init, mdGlob, rstGlob, p);
      NotesAgree(fs.files, s.files, last, Readme);
      if HasReadme(fs, last) && InFolderCache(p, last) {
        var name := p[|Cache| + 1];
        FolderCacheShape(p, last);
        var files := SelectFiles(mdGlob(last), rstGlob(last));
        if name != EntryName(last) && name in files {
          NotesAgree(fs.files, s.files, last, name);
        }
      }
    }
  }

  /** Every selected document of a folder with a README is staged as an exact
      copy, except one named `<folder>.md`, which the rewritten README
      replaces. */
  lemma StagedCopy(fs: FileSystem, folders: seq<string>,
                   mdGlob: string -> seq<string>, rstGlob: string -> seq<string>,
                   folder: string, name: string)
    requires GlobsValid(fs, folders, mdGlob, rstGlob)
    requires folder in folders && HasReadme(fs, folder)
    requires name in SelectFiles(mdGlob(folder), rstGlob(folder)) && name != EntryName(folder)
    ensures NotesPath(folder, name) in fs.files
    ensures Lookup(Collect(fs, folders, mdGlob, rstGlob).files, CachePath(folder, name))
            == Some(fs.files[NotesPath(folder, name)])
  {
    assert GlobbedExist(fs, folder, mdGlob(folder), rstGlob(folder));
    var p := CachePath(folder, name);
    assert |p| == |Cache| + 2 && Cache <= p && p[|Cache|] == folder && p[|Cache| + 1] == name;
    CollectAt(fs, folders, mdGlob, rstGlob, p);
  }

  /** The staged entry document of a folder with a README is the README with
      every `__TOC__` replaced by the newline-joined selected documents. */
  lemma StagedEntry(fs: FileSystem, folders: seq<string>,
                    mdGlob: string -> seq<string>, rstGlob: string -> seq<string>, folder: string)
    requires GlobsValid(fs, folders, mdGlob, rstGlob)
    requires folder in folders && HasReadme(fs, folder)
    ensures Lookup(Collect(fs, folders, mdGlob, rstGlob).files, CachePath(folder, EntryName(folder)))
            == Some(ReplaceAll(fs.files[NotesPath(folder, Readme)], Token,
                               Join(SelectFiles(mdGlob(folder), rstGlob(folder)), "\n")))
  {
    CollectAt(fs, folders, mdGlob, rstGlob, CachePath(folder, EntryName(folder)));
  }

  /** A README without the placeholder is staged unchanged. */
  lemma StagedEntryWithoutPlaceholder(fs: FileSystem, folders: seq<string>,
                                      mdGlob: string -> seq<string>, rstGlob: string -> seq<string>,
                                      folder: string)
    requires GlobsValid(fs, folders, mdGlob, rstGlob)
    requires folder in folders && HasReadme(fs, folder)
    requires !Contains(fs.files[NotesPath(folder, Readme)], Token)
    ensures Lookup(Collect(fs, folders, mdGlob, rstGlob).files, CachePath(folder, EntryName(folder)))
            == Some(fs.files[NotesPath(folder, Readme)])
  {
    StagedEntry(fs, folders, mdGlob, rstGlob, folder);
    ReplaceAbsent(fs.files[NotesPath(folder, Readme)], Token,
                  Join(SelectFiles(mdGlob(folder), rstGlob(folder)), "\n"));
  }

  /** A folder without a README (or not listed) gets no staging directory,
      and nothing below it is written. */
  lemma SkippedFolder(fs: FileSystem, folders: seq<string>,
                      mdGlob: string -> seq<string>, rstGlob: string -> seq<string>,
                      folder: string, name: string)
    requires GlobsValid(fs, folders, mdGlob, rstGlob)
    requires !(folder in folders && HasReadme(fs, folder))
    ensures Lookup(Collect(fs, folders, mdGlob, rstGlob).files, CachePath(folder, name))
            == Lookup(fs.files, CachePath(folder, name))
    ensures CacheDir(folder) in Collect(fs, folders, mdGlob, rstGlob).dirs <==> CacheDir(folder) in fs.dirs
  {
    CollectAt(fs, folders, mdGlob, rstGlob, CachePath(folder, name));
    ReadmeDirsMember(fs, folders, folder);
  }

  lemma ReadmeDirsMember(fs: FileSystem, folders: seq<string>, folder: string)
    ensures CacheDir(folder) in ReadmeDirs(fs, folders) <==> folder in folders && HasReadme(fs, folder)
  {
    forall g | g in folders && HasReadme(fs, g) && CacheDir(g) == CacheDir(folder) ensures g == folder {
      assert CacheDir(g)[|Cache|] == g;
    }
  }

  /** Running the collector a second time over its own result changes
      nothing. */
  lemma CollectIdempotent(fs: FileSystem, folders: seq<string>,
                          mdGlob: string -> seq<string>, rstGlob: string -> seq<string>)
    requires GlobsValid(fs, folders, mdGlob, rstGlob)
    ensures GlobsValid(Collect(fs, folders, mdGlob, rstGlob), folders, mdGlob, rstGlob)
    ensures Collect(Collect(fs, folders, mdGlob, rstGlob), folders, mdGlob, rstGlob)
            == Collect(fs, folders, mdGlob, rstGlob)
  {
    var s := Collect(fs, folders, mdGlob, rstGlob);
    forall f ensures HasReadme(s, f) == HasReadme(fs, f) {
      NotesAgree(fs.files, s.files, f, Readme);
    }
    forall f | f in folders && HasReadme(s, f) ensures GlobbedExist(s, f, mdGlob(f), rstGlob(f)) {
      forall n | n in SelectFiles(mdGlob(f), rstGlob(f)) ensures NotesPath(f, n) in s.files {
        NotesAgree(fs.files, s.files, f, n);
      }
    }
    var t := Collect(s, folders, mdGlob, rstGlob);
    forall p ensures Lookup(t.files, p) == Lookup(s.files, p) {
      CollectAt(s, folders, mdGlob, rstGlob, p);
      CollectAt(fs, folders, mdGlob, rstGlob, p);
      if |p| == |Cache| + 2 && Cache <= p && p[|Cache|] in folders && HasReadme(fs, p[|Cache|]) {
        var f, name := p[|Cache|], p[|Cache| + 1];
        assert p == CachePath(f, name);
        NotesAgree(fs.files, s.files, f, Readme);
        NotesAgree(fs.files, s.files, f, name);
      }
    }
    LookupExtensional(t.files, s.files);
    assert ReadmeDirs(s, folders) == ReadmeDirs(fs, folders);
  }

  // ---------------------------------------------------------------------
  // The table of contents.

  lemma TocEntryInjective(f: string, g: string)
    requires TocEntry(f) == TocEntry(g)
    ensures f == g
  {
    assert |f| == |g|;
    assert TocEntry(f)[6..6 + |f|] == f;
    assert TocEntry(g)[6..6 + |g|] == g;
  }

  /** An entry holds the placeholder only if its folder name does, and it
      begins with `c` and ends with `d`, neither of which the placeholder
      holds. */
  lemma TocEntryShape(f: string)
    requires !Contains(f, Token)
    ensures !Contains(TocEntry(f), Token)
    ensures TocEntry(f) != [] && TocEntry(f)[0] == 'c' && TocEntry(f)[|TocEntry(f)| - 1] == 'd'
    ensures TocEntry(f)[0] !in Token && TocEntry(f)[|TocEntry(f)| - 1] !in Token
  {
    AbsentAcross(f, '.', "md", Token);
    assert f + ['.'] + "md" == f + ".md";
    AbsentAcross(f, '/', f + ".md", Token);
    assert f + ['/'] + (f + ".md") == f + "/" + f + ".md";
    AbsentAcross("cache", '/', f + "/" + f + ".md", Token);
    assert "cache" + ['/'] + (f + "/" + f + ".md") == TocEntry(f);
  }

  /** Each folder of the listing that has a README contributes exactly one
      entry per occurrence in the listing; any other folder contributes none. */
  lemma {:induction false} TocCount(fs: FileSystem, folders: seq<string>, folder: string)
    ensures multiset(Toc(fs, folders))[TocEntry(folder)]
            == if HasReadme(fs, folder) then multiset(folders)[folder] else 0
    decreases |folders|
  {
    if folders != [] {
      var init, last := folders[..|folders| - 1], folders[|folders| - 1];
      assert folders == init + [last];
      TocCount(fs, init, folder);
      if TocEntry(last) == TocEntry(folder) {
        TocEntryInjective(last, folder);
      }
    }
  }

  /** Every entry is the entry of a listed folder that has a README. */
  lemma {:induction false} TocOnlyEntries(fs: FileSystem, folders: seq<string>)
    ensures forall e :: e in Toc(fs, folders) ==>
              exists f :: f in folders && HasReadme(fs, f) && e == TocEntry(f)
    decreases |folders|
  {
    if folders != [] {
      var init, last := folders[..|folders| - 1], folders[|folders| - 1];
      assert folders == init + [last];
      TocOnlyEntries(fs, init);
    }
  }

  /** The entries of a prefix of the listing come first. */
  lemma {:induction false} TocPrefix(fs: FileSystem, folders: seq<string>, i: nat)
    requires i <= |folders|
    ensures Toc(fs, folders[..i]) <= Toc(fs, folders)
    decreases |folders|
  {
    if i == |folders| {
      assert folders[..i] == folders;
    } else {
      var init := folders[..|folders| - 1];
      TocPrefix(fs, init, i);
      assert init[..i] == folders[..i];
      var a, b := Toc(fs, folders[..i]), Toc(fs, init);
      assert a == b[..|a|];
      assert Toc(fs, folders)[..|b|] == b;
      assert Toc(fs, folders)[..|a|] == a;
    }
  }

  /** The folder at index `i` of the listing, when it has a README, has its
      entry right after the entries of the folders before it: the table of
      contents follows listing order. */
  lemma TocPosition(fs: FileSystem, folders: seq<string>, i: nat)
    requires i < |folders| && HasReadme(fs, folders[i])
    ensures |Toc(fs, folders[..i])| < |Toc(fs, folders)|
    ensures Toc(fs, folders)[|Toc(fs, folders[..i])|] == TocEntry(folders[i])
  {
    assert folders[..i + 1][..i] == folders[..i];
    assert Toc(fs, folders[..i + 1]) == Toc(fs, folders[..i]) + [TocEntry(folders[i])];
    TocPrefix(fs, folders, i + 1);
  }
}
