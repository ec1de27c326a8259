/** `update_master_doc`: the master index is the template with every
    `__TOC__` replaced by the sorted, newline-joined table of contents. */
module Composer {
  import opened Text
  import opened Order
  import opened Workspace
  import Collector

  /** The text written to `source/index.md` for a template text and a table
      of contents. */
  function MasterDoc(template: string, toc: seq<string>): string {
    ReplaceAll(template, Collector.Token, Join(Sort(toc), "\n"))
  }

  /** `update_master_doc(toc)`: reads the template and writes the index,
      overwriting it; nothing else changes. */
  function UpdateMasterDoc(fs: FileSystem, toc: seq<string>): (r: FileSystem)
    requires TemplatePath in fs.files
    ensures Lookup(r.files, IndexPath) == Some(MasterDoc(fs.files[TemplatePath], toc))
    ensures forall p :: p != IndexPath ==> Lookup(r.files, p) == Lookup(fs.files, p)
    ensures r.dirs == fs.dirs
  {
    fs.Write(IndexPath, MasterDoc(fs.files[TemplatePath], toc))
  }

  /** The index does not depend on the order in which the table of contents
      was collected. */
  lemma MasterDocOrderIndependent(template: string, a: seq<string>, b: seq<string>)
    requires multiset(a) == multiset(b)
    ensures MasterDoc(template, a) == MasterDoc(template, b)
  {
    SortPermutationInvariant(a, b);
  }

  /** A template without the placeholder is copied unchanged. */
  lemma MasterDocWithoutPlaceholder(template: string, toc: seq<string>)
    requires !Contains(template, Collector.Token)
    ensures MasterDoc(template, toc) == template
  {
    ReplaceAbsent(template, Collector.Token, Join(Sort(toc), "\n"));
  }

  /** For a template holding the placeholder once, the index is the template
      with, in its place, the lines of a sorted arrangement of the table of
      contents: each entry appears as often as it was collected, and when no
      entry holds a newline, splitting the inserted text at newlines gives
      those lines back. */
  lemma MasterDocListsSortedToc(pre: string, post: string, toc: seq<string>)
    requires forall i :: 0 <= i < |pre| ==> !OccursAt(pre + Collector.Token + post, Collector.Token, i)
    requires !Contains(post, Collector.Token)
    ensures var lines := Sort(toc);
            && MasterDoc(pre + Collector.Token + post, toc) == pre + Join(lines, "\n") + post
            && Sorted(lines)
            && multiset(lines) == multiset(toc)
            && (toc != [] && (forall k :: 0 <= k < |toc| ==> '\n' !in toc[k]) ==>
                  Split(Join(lines, "\n"), '\n') == lines)
  {
    var lines := Sort(toc);
    ReplaceSingle(pre, Collector.Token, post, Join(lines, "\n"));
    if toc != [] && (forall k :: 0 <= k < |toc| ==> '\n' !in toc[k]) {
      assert |lines| == |toc| by {
        assert |multiset(lines)| == |multiset(toc)|;
      }
      forall k | 0 <= k < |lines| ensures '\n' !in lines[k] {
        assert lines[k] in multiset(toc);
      assert lines[k] in toc;
      }
      SplitJoin(lines, '\n');
    }
  }

  /** For a template holding the placeholder once, and a non-empty table of
      contents whose folder names do not hold it, the index holds no
      placeholder: the entries neither hold one nor create one at their
      borders, since each begins with `c` and ends with `d`. */
  lemma IndexHasNoPlaceholder(pre: string, post: string, fs: FileSystem, folders: seq<string>)
    requires forall i :: 0 <= i < |pre| ==> !OccursAt(pre + Collector.Token + post, Collector.Token, i)
    requires !Contains(post, Collector.Token)
    requires Collector.Toc(fs, folders) != []
    requires forall f :: f in folders ==> !Contains(f, Collector.Token)
    ensures !Contains(MasterDoc(pre + Collector.Token + post, Collector.Toc(fs, folders)), Collector.Token)
  {
    var toc := Collector.Toc(fs, folders);
    var lines := Sort(toc);
    var joined := Join(lines, "\n");
    ReplaceSingle(pre, Collector.Token, post, joined);
    Collector.TocOnlyEntries(fs, folders);
    forall k | 0 <= k < |lines|
      ensures !Contains(lines[k], Collector.Token)
      ensures lines[k] != [] && lines[k][0] !in Collector.Token && lines[k][|lines[k]| - 1] !in Collector.Token
    {
      assert lines[k] in multiset(toc);
      assert lines[k] in toc;
      var f :| f in folders && Collector.HasReadme(fs, f) && lines[k] == Collector.TocEntry(f);
      Collector.TocEntryShape(f);
    }
    assert lines != [] by {
      assert toc[0] in multiset(lines);
    }
    JoinAbsent(lines, '\n', Collector.Token);
    JoinEnds(lines, "\n");
    assert joined[0] == lines[0][0];
    assert joined[|joined| - 1] == lines[|lines| - 1][|lines[|lines| - 1]| - 1];
    AbsentBetween(pre, joined, post, Collector.Token);
  }

  /** A notes folder named `__TOC__` puts the placeholder back: its entry
      `cache/__TOC__/__TOC__.md` holds it. */
  lemma PlaceholderFolderRestoresPlaceholder(template: string, folder: string)
    requires template == Collector.Token && folder == Collector.Token
    ensures Contains(MasterDoc(template, [Collector.TocEntry(folder)]), Collector.Token)
  {
    var e := Collector.TocEntry(folder);
    assert Sort([e]) == [e] by {
      var single: seq<string> := [e];
      assert single[1..] == [];
    }
    ReplaceSingle("", Collector.Token, "", e);
    assert "" + Collector.Token + "" == template && "" + e + "" == e;
    assert Join([e], "\n") == e;
    assert MasterDoc(template, [e]) == e;
    assert e[6..6 + |folder|] == folder;
    assert 6 <= |e| && OccursAt(e, Collector.Token, 6);
  }

  /** The index for template `# Docs\n__TOC__\n` and a table of contents
      collected as `cache/b/b.md`, `cache/a/a.md`. */
  lemma MasterDocExample(template: string, toc: seq<string>)
    requires template == "# Docs\n__TOC__\n"
    requires toc == ["cache/b/b.md", "cache/a/a.md"]
    ensures MasterDoc(template, toc) == "# Docs\ncache/a/a.md\ncache/b/b.md\n"
  {
    var a, b := "cache/a/a.md", "cache/b/b.md";
    var pre, post := "# Docs\n", "\n";
    ExampleTemplate();
    MasterDocListsSortedToc(pre, post, toc);
    ExampleSorted();
    assert [a, b][1..] == [b];
    assert Join([a, b], "\n") == a + "\n" + b;
    ExampleIndex();
    assert MasterDoc(template, toc) == pre + (a + "\n" + b) + post;
  }

  lemma ExampleIndex()
    ensures "# Docs\n" + ("cache/a/a.md" + "\n" + "cache/b/b.md") + "\n"
            == "# Docs\ncache/a/a.md\ncache/b/b.md\n"
  {
  }

  lemma ExampleSorted()
    ensures Sort(["cache/b/b.md", "cache/a/a.md"]) == ["cache/a/a.md", "cache/b/b.md"]
  {
    var a, b := "cache/a/a.md", "cache/b/b.md";
    assert b[..6] == a[..6] && b[6] == 'b' && a[6] == 'a';
    LexLeqFirstDifference(b, a, 6);
    assert [b, a][1..] == [a];
  }

  lemma ExampleTemplate()
    ensures "# Docs\n__TOC__\n" == "# Docs\n" + Collector.Token + "\n"
    ensures forall i :: 0 <= i < 7 ==> !OccursAt("# Docs\n" + Collector.Token + "\n", Collector.Token, i)
    ensures !Contains("\n", Collector.Token)
  {
    var s := "# Docs\n" + Collector.Token + "\n";
    forall i | 0 <= i < 7 ensures !OccursAt(s, Collector.Token, i) {
      assert s[i..i + 7][0] == s[i] != '_' == Collector.Token[0];
    }
  }
}
