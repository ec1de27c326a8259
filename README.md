# publish.py, modelled in Dafny

`source/publish.py` builds the iBiology notes site and publishes it to GitHub
Pages. `update_doc` walks the folders of `source/notes` in listing order. For
every folder that has a `README.md`, it stages the folder's documents under
`source/cache/<folder>/`:

- the `.md` files whose names do not end in `README.md`, then the `.rst` files;
- a rewritten README named `<folder>.md`, with every `__TOC__` replaced by the
  newline-joined list of staged documents.

It returns one table-of-contents entry `cache/<folder>/<folder>.md` per such
folder. `update_master_doc` writes `source/index.md` from
`source/index.template.md`, replacing every `__TOC__` by the sorted,
newline-joined table of contents. `main` takes the commit message from the
command line, runs both, and then hands nine shell commands to the runner:
build, clean up, move the site into `docs`, commit and push. With no message it
logs one error and does nothing else.

The project has six modules:

- `Text`: Python's `str.endswith`, `str.join` and `str.replace`, and `str.split`
  as the inverse of `join` that reads a joined list back (the script itself
  never splits).
- `Order`: Python's string ordering and `sorted()`.
- `Workspace`: the file system as a value. Files are keyed by their path
  components, and the directories created are kept as a set.
- `Collector`: `update_doc`, as a method with the source's two loops. It is
  proved equal to the specification functions `Collect` and `Toc`.
- `Composer`: `update_master_doc`.
- `Publisher`: `main`, as a function that returns the new file system, the
  command lines run, and the errors logged.

The directory listing and the two glob results of each folder are parameters
(`folders`, `mdGlob`, `rstGlob`), because their order is whatever the operating
system returns. Every name a glob returns exists in the folder it was taken
from (`GlobsValid`).

## Model

| member | source | states |
|---|---|---|
| Collector.UpdateDoc | source/publish.py:25-49 | the loop returns exactly `Toc` of the listing and leaves exactly the file system `Collect` describes |
| Collector.Collect | source/publish.py:32-48 | nothing outside `source/cache` changes (the notes tree is never written), and the directories created are exactly `cache/<f>` for the listed folders with a README |
| Collector.Toc | source/publish.py:32-38 | at most one entry per listed folder |
| Collector.TocEntry | source/publish.py:38 | each entry is `cache/<folder>/<folder>.md` |
| Collector.TocEntryShape | source/publish.py:38 | an entry holds `__TOC__` only if its folder name does, and it begins with `c` and ends with `d` |
| Collector.TocEntryInjective | source/publish.py:38 | different folders give different entries |
| Collector.TocCount | source/publish.py:33-38 | each folder with a README has its entry once per listing occurrence; a folder without one has none |
| Collector.TocOnlyEntries | source/publish.py:33-38 | every entry belongs to a listed folder that has a README |
| Collector.TocPrefix | source/publish.py:33-38 | entries are appended: the entries of a prefix of the listing are a prefix of the table |
| Collector.TocPosition | source/publish.py:33-38 | the entry of the folder at index i comes right after those of the folders before it (listing order) |
| Collector.NonReadme | source/publish.py:41 | keeps exactly the `.md` names that do not end in `README.md` |
| Collector.NonReadmeConcat | source/publish.py:41 | the filter of a concatenation is the concatenation of the filters, so the kept names stay in glob order |
| Collector.NonReadmeKeepsOrder | source/publish.py:41 | each name is kept, in its place among the others, exactly when it does not end in `README.md` |
| Collector.SelectFiles | source/publish.py:41-42 | a name is selected iff it is a non-README `.md` name or an `.rst` name; the filtered `.md` names come first, in glob order, then the `.rst` names, in glob order |
| Collector.CopyAll | source/publish.py:44-45 | each selected document is copied verbatim into the folder's staging directory; every other path is unchanged |
| Collector.ProcessFolder | source/publish.py:34-48 | a folder with a README gets its staging directory, its copies and its rewritten entry document, and nothing else changes; a folder without one changes nothing |
| Collector.CollectAt | source/publish.py:32-48 | after the loop, each path holds its staged content or its previous content |
| Collector.StagedCopy | source/publish.py:44-45 | each selected document of a folder with a README is staged as an exact copy, unless it is named `<folder>.md` |
| Collector.StagedEntry | source/publish.py:47-48 | the entry document is the README with every `__TOC__` replaced by the newline-joined selected names |
| Collector.StagedEntryWithoutPlaceholder | source/publish.py:47-48 | a README without `__TOC__` is staged unchanged |
| Collector.SkippedFolder | source/publish.py:36 | a folder without a README (or one not listed) gets no staging directory, and nothing is written below it |
| Collector.CollectIdempotent | source/publish.py:32-48 | collecting a second time over the result changes nothing |
| Composer.UpdateMasterDoc | source/publish.py:60-61 | the index is written with the composed text; every other path and the directories are unchanged |
| Composer.MasterDocOrderIndependent | source/publish.py:61 | the index depends only on the multiset of entries, not on their order |
| Composer.MasterDocWithoutPlaceholder | source/publish.py:61 | a template without `__TOC__` is copied unchanged |
| Composer.MasterDocListsSortedToc | source/publish.py:61 | for a template holding `__TOC__` once, the index is the template with a sorted permutation of the entries joined in its place, and splitting that text at newlines gives the entries back |
| Composer.IndexHasNoPlaceholder | source/publish.py:61 | for a template holding `__TOC__` once and a non-empty table of contents whose folder names do not hold `__TOC__`, the index holds no `__TOC__` |
| Composer.PlaceholderFolderRestoresPlaceholder | source/publish.py:61 | a notes folder named `__TOC__` puts `__TOC__` back into the index, through its entry `cache/__TOC__/__TOC__.md` |
| Composer.MasterDocExample | source/publish.py:61 | the entries `cache/b/b.md` and `cache/a/a.md` in the template `# Docs\n__TOC__\n` give `# Docs\ncache/a/a.md\ncache/b/b.md\n` |
| Order.Sort | source/publish.py:61 | `sorted()` returns an ascending permutation of its input |
| Order.Insert | source/publish.py:61 | inserting into a sorted list keeps it sorted and adds exactly that element |
| Order.SortedUnique | source/publish.py:61 | a multiset of strings has only one ascending arrangement |
| Order.SortPermutationInvariant | source/publish.py:61 | `sorted()` gives the same result for any permutation of its input |
| Order.LexLeq | source/publish.py:61 | Python's `<=` on strings, which `sorted()` orders by: code point by code point, a proper prefix before its extensions |
| Order.LexLeqTotal | source/publish.py:61 | Python's string order is total |
| Order.LexLeqAntisymmetric | source/publish.py:61 | Python's string order is antisymmetric |
| Order.LexLeqTransitive | source/publish.py:61 | Python's string order is transitive |
| Order.LexLeqReflexive | source/publish.py:61 | Python's string order is reflexive |
| Order.LexLeqFirstDifference | source/publish.py:61 | strings are ordered by their first differing character |
| Text.Split | source/publish.py:48 | not called by the script: the inverse of the newline join at this line, used by `SplitJoin` and `MasterDocListsSortedToc` to read the joined list back; it gives at least one piece, and no piece holds the separator |
| Text.SplitJoin | source/publish.py:48 | splitting newline-joined names without newlines gives the names back |
| Text.JoinSplit | source/publish.py:48 | joining the pieces of a split gives the text back |
| Text.ReplaceAbsent | source/publish.py:48 | `str.replace` leaves a text without the pattern unchanged |
| Text.ReplaceFirst | source/publish.py:48 | `str.replace` replaces the first occurrence and resumes scanning after it |
| Text.ReplaceSingle | source/publish.py:48 | a text with one occurrence of the pattern gets the replacement in its place |
| Publisher.Main | source/publish.py:64-79 | with no message nothing runs, the file system is unchanged and exactly one error is logged; with a message no error is logged, nine commands run, and the commit message is the argument |
| Publisher.MainPublishes | source/publish.py:66-68 | with a message the commands are the publishing sequence, the index is composed from the original template and the collected table of contents, every entry document is staged, every path of the staging tree holds what `Collector.Expected` gives (the rewritten READMEs, the copies, or what was there before), the directories created are exactly `cache/<f>` for the listed folders with a README, and nothing outside the staging tree changes except the index |
| Publisher.PublishCommands | source/publish.py:69-77 | there are exactly nine commands, and the commit command carries the message |
| Publisher.CommitMessageRoundTrip | source/publish.py:76 | the message is embedded verbatim and can be read back from the commit command |
| Publisher.PublishCommandsDependOnlyOnMessage | source/publish.py:69-77 | only the commit command depends on the message, and different messages give different command sequences |
| Text.EndsWith | source/publish.py:41 | `str.endswith`: the text ends with the suffix |
| Text.Join | source/publish.py:48 | `sep.join(parts)`: the parts with the separator between neighbours; its inverse is `Text.Split` |
| Text.JoinAbsent | source/publish.py:48 | joining texts without a pattern by a character foreign to it creates no occurrence |
| Text.JoinEnds | source/publish.py:48 | a non-empty join starts with the first part and ends with the last |
| Text.AbsentBetween | source/publish.py:61 | a text without the pattern, whose first and last characters are foreign to it, put in place of a single occurrence leaves none behind |
| Text.ReplaceAll | source/publish.py:48 | `str.replace`: every non-overlapping occurrence, scanning left to right, is replaced; its properties are the `Replace*` lemmas |
| Collector.NotesPath | source/publish.py:34 | the path of a file in a notes folder, `source/notes/<folder>/<name>` |
| Collector.CacheDir | source/publish.py:37 | a folder's staging directory, `source/cache/<folder>` |
| Collector.CachePath | source/publish.py:35 | the path of a staged file, `source/cache/<folder>/<name>` |
| Collector.EntryName | source/publish.py:35 | the entry document's name, `<folder>.md` |
| Collector.HasReadme | source/publish.py:34-36 | the folder's `README.md` exists |
| Collector.Rewrite | source/publish.py:47-48 | the README text with every `__TOC__` replaced by the newline-joined selected names; staged by `StagedEntry` |
| Composer.MasterDoc | source/publish.py:61 | the template text with every `__TOC__` replaced by the sorted, newline-joined table of contents; its properties are the `MasterDoc*` lemmas |
| Publisher.CommitCommand | source/publish.py:76 | the commit command line with the message inserted verbatim; read back by `CommitMessageRoundTrip` |
| Workspace.FileSystem.MakeDirs | source/publish.py:37 | `os.makedirs(..., exist_ok=True)`; its effect is `MakeDirsEffect` |
| Workspace.FileSystem.Copy | source/publish.py:45 | `shutil.copy`; its effect is `CopyEffect` |
| Workspace.FileSystem.Write | source/publish.py:47-48 | writing a file opened with `'w'`; its effect is `WriteEffect` |
| Workspace.MakeDirsEffect | source/publish.py:37 | the directory exists afterwards, whether or not it did before, and no file changes |
| Workspace.CopyEffect | source/publish.py:45 | the target holds the source's contents, whatever it held before; every other path and the directories are unchanged |
| Workspace.WriteEffect | source/publish.py:47-48 | the path holds the written text, whatever it held before; every other path and the directories are unchanged |
| Workspace.TemplateOutsideCache | source/publish.py:60 | the template and the index lie outside `source/cache` |

## Left out

- Real I/O. The file system is a value; file contents are text, not bytes.
- `os.chdir`: globbing and copying are done relative to the folder's notes path instead of the working directory.
- Glob semantics (wildcards, hidden files, order): the names each glob returns are parameters.
- The module-level `os.makedirs(CACHE, exist_ok=True)` runs on import, before `main`, so it is not part of the model.
- `os.path.exists` is also true for a directory named `README.md`; the model treats a README as a file only.
- Publisher.Main: a missing `index.template.md` makes the source raise `FileNotFoundError`, which `main` does not catch. The model requires the template to exist instead of modelling the crash.
- Publisher.Main: the `except IndexError` around the whole body also catches an `IndexError` raised by the collection, the composition or any of the nine `cmder.run` calls, and logs the same missing-message error after some steps have run. The model produces that error only when `sys.argv[1]` is missing. Other exceptions propagate out of `main` in the source; the model does not cover those paths.
- Collector.GlobsValid: a name a glob returns that is not a regular file (a directory or a dangling symbolic link named `*.md` or `*.rst`) makes `shutil.copy` raise, and `main` does not catch that. The model requires every globbed name to be a file and does not model the crash.
- Collector.StagedEntry: the source reads the README in text mode. That read decodes it with the locale's encoding and turns `\r\n` and `\r` into `\n`, so a README with `\r\n` line ends is staged with `\n` line ends. The model treats file contents as already decoded text with no newline translation. The copies made by `shutil.copy` keep their bytes in both.
- Collector.StagedEntryWithoutPlaceholder: "staged unchanged" holds only up to that newline translation and decoding.
- Composer.UpdateMasterDoc: the template is read in text mode too, so the same newline translation applies to the index.
- Composer.IndexHasNoPlaceholder: the index can still hold `__TOC__`. A folder whose name holds `__TOC__` puts it back through its entry (`Composer.PlaceholderFolderRestoresPlaceholder`). With an empty table of contents, the replacement can join the two halves of a split placeholder, as in the template `__TO` + `__TOC__` + `C__`. A template with more than one `__TOC__` is not covered by the lemma.
- The effects of the nine commands, their logging flags (`debug`, `log_cmd`, `fmt_cmd`, `msg`), their working directory, and any failure partway through the sequence are not modelled. The commands are kept as the command lines handed to the runner.
- The shell's reading of the commit command: a message that holds `"` is embedded verbatim, and the model does not say how the shell splits it.
- `os.path.join` is modelled with `/` as the separator, as on POSIX systems.
