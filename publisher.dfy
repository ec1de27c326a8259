/** `main`: with a commit message on the command line, collect the notes,
    compose the index, then run the nine publishing commands in order; with
    none, log one error and do nothing else. The commands are recorded as a
    trace of command lines; what they do is up to the tools they name. */
module Publisher {
  import opened Workspace
  import Collector
  import Composer

  const NoMessageError :=
    "No commit message was provided, please provide a message to build and publish docs."

  const CommitPrefix := "git commit -m \""

  /** `f'git commit -m "{message}"'`: the message goes in verbatim, with no
      escaping. */
  function CommitCommand(message: string): string {
    CommitPrefix + message + "\""
  }

  /** The message of a commit command line, read back. */
  function CommitMessage(command: string): Option<string> {
    if |command| > |CommitPrefix| && command[..|CommitPrefix|] == CommitPrefix && command[|command| - 1] == '"'
    then Some(command[|CommitPrefix|..|command| - 1])
    else None
  }

  /** The command lines `main` hands to the runner, in order: build, remove the
      staging tree, empty `docs`, move the built site in, mark it for the
      static host, remove the build directory, stage, commit, push. */
  function PublishCommands(message: string): (commands: seq<string>)
    ensures |commands| == 9
    ensures CommitMessage(commands[7]) == Some(message)
  {
    CommitMessageRoundTrip(message);
    [ "make html",
      "rm -r source/cache",
      "rm -r docs/*",
      "mv build/html/* docs/",
      "touch docs/.nojekyll",
      "rm -rf build",
      "git add docs",
      CommitCommand(message),
      "git push origin main" ]
  }

  /** The message is recovered exactly, whatever characters it holds. */
  lemma CommitMessageRoundTrip(message: string)
    ensures CommitMessage(CommitCommand(message)) == Some(message)
  {
  }

  /** Only the commit command depends on the message, and different messages
      give different traces. */
  lemma PublishCommandsDependOnlyOnMessage(m1: string, m2: string)
    ensures forall k :: 0 <= k < 9 && k != 7 ==> PublishCommands(m1)[k] == PublishCommands(m2)[k]
    ensures PublishCommands(m1) == PublishCommands(m2) <==> m1 == m2
  {
  }

  /** What a run of `main` leaves: the file system after collection and
      composition, the command lines run, and the errors logged. */
  datatype Run = Run(fs: FileSystem, commands: seq<string>, errors: seq<string>)

  /** `main()` with `sys.argv` as `argv` (the program name first). */
  function Main(argv: seq<string>, fs: FileSystem, folders: seq<string>,
                mdGlob: string -> seq<string>, rstGlob: string -> seq<string>): (r: Run)
    requires |argv| >= 2 ==> Collector.GlobsValid(fs, folders, mdGlob, rstGlob) && TemplatePath in fs.files
    ensures |argv| < 2 ==> r == Run(fs, [], [NoMessageError])
    ensures |argv| >= 2 ==> r.errors == [] && |r.commands| == 9
                            && CommitMessage(r.commands[7]) == Some(argv[1])
  {
    if |argv| < 2 then Run(fs, [], [NoMessageError])
    else
      var message := argv[1];
      var staged := Collector.Collect(fs, folders, mdGlob, rstGlob);
      var toc := Collector.Toc(fs, folders);
      TemplateOutsideCache();
      assert Lookup(staged.files, TemplatePath) == Lookup(fs.files, TemplatePath);
      Run(Composer.UpdateMasterDoc(staged, toc), PublishCommands(message), [])
  }

  /** With a message, the index is composed from the unchanged template and
      the table of contents of the collection, the staged entry documents are
      in place, and nothing outside the staging tree but the index has
      changed. */
  lemma MainPublishes(argv: seq<string>, fs: FileSystem, folders: seq<string>,
                      mdGlob: string -> seq<string>, rstGlob: string -> seq<string>)
    requires |argv| >= 2
    requires Collector.GlobsValid(fs, folders, mdGlob, rstGlob) && TemplatePath in fs.files
    ensures var r := Main(argv, fs, folders, mdGlob, rstGlob);
            && r.commands == PublishCommands(argv[1])
            && Lookup(r.fs.files, IndexPath)
               == Some(Composer.MasterDoc(fs.files[TemplatePath], Collector.Toc(fs, folders)))
            && (forall p :: !InCache(p) && p != IndexPath ==> Lookup(r.fs.files, p) == Lookup(fs.files, p))
            && (forall f :: f in folders && Collector.HasReadme(fs, f) ==>
                  Collector.CachePath(f, Collector.EntryName(f)) in r.fs.files)
            && (forall p :: InCache(p) ==>
                  Lookup(r.fs.files, p) == Collector.Expected(fs, folders, mdGlob, rstGlob, p))
            && r.fs.dirs == fs.dirs + Collector.ReadmeDirs(fs, folders)
  {
    var r := Main(argv, fs, folders, mdGlob, rstGlob);
    var staged := Collector.Collect(fs, folders, mdGlob, rstGlob);
    TemplateOutsideCache();
    assert Lookup(staged.files, TemplatePath) == Lookup(fs.files, TemplatePath);
    forall f | f in folders && Collector.HasReadme(fs, f)
      ensures Collector.CachePath(f, Collector.EntryName(f)) in r.fs.files
    {
      Collector.StagedEntry(fs, folders, mdGlob, rstGlob, f);
      assert Collector.CachePath(f, Collector.EntryName(f)) != IndexPath;
      assert Lookup(r.fs.files, Collector.CachePath(f, Collector.EntryName(f)))
             == Lookup(staged.files, Collector.CachePath(f, Collector.EntryName(f)));
    }
    forall p | InCache(p)
      ensures Lookup(r.fs.files, p) == Collector.Expected(fs, folders, mdGlob, rstGlob, p)
    {
      Collector.CollectAt(fs, folders, mdGlob, rstGlob, p);
    }
  }
}
