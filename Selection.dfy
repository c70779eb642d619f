/** Which files of the cloned repository are loaded: the configuration
    normalisation of the window entry point (src/chat_with_llm.py) and the
    `file_filter` predicates the two entry points hand to the Git loader. */
module Selection {
  import opened Strings
  import opened Wrappers

  /** FILTER_EXT as the window entry point normalises it: the value (the empty
      string when the key is absent) split at every comma, each token stripped
      and given a leading dot. */
  function NormalizeExtensions(filterExt: Option<string>): (exts: seq<string>)
    ensures |exts| == Count(RawExtensions(filterExt), ',') + 1
    ensures forall i :: 0 <= i < |exts| ==>
              exts[i] == "." + Strip(Split(RawExtensions(filterExt), ',')[i])
  {
    var tokens := Split(RawExtensions(filterExt), ',');
    seq(|tokens|, i requires 0 <= i < |tokens| => "." + Strip(tokens[i]))
  }

  function RawExtensions(filterExt: Option<string>): string {
    if filterExt.Some? then filterExt.value else ""
  }

  /** `tuple(filter_ext) if filter_ext else None`: the tuple given to endswith,
      or None when the list is empty. */
  function ExtensionTuple(exts: seq<string>): (t: Option<seq<string>>)
    ensures t.None? <==> exts == []
    ensures t.Some? ==> t.value == exts
  {
    if exts == [] then None else Some(exts)
  }

  /** The list is never empty and every entry starts with a dot, so the
      window entry point always filters by extension: the "else None" branch
      is dead. */
  lemma ExtensionsNeverEmpty(filterExt: Option<string>)
    ensures NormalizeExtensions(filterExt) != []
    ensures forall e :: e in NormalizeExtensions(filterExt) ==> StartsWith(e, ".")
    ensures ExtensionTuple(NormalizeExtensions(filterExt)) == Some(NormalizeExtensions(filterExt))
  {
    var exts := NormalizeExtensions(filterExt);
    forall e | e in exts ensures StartsWith(e, ".") {
      var i :| 0 <= i < |exts| && exts[i] == e;
      assert e[..1] == ".";
    }
  }

  /** A missing or empty FILTER_EXT yields the one suffix ".", not "all files". */
  lemma EmptyFilterExtIsDot(filterExt: Option<string>)
    requires filterExt == None || filterExt == Some("")
    ensures NormalizeExtensions(filterExt) == ["."]
  {
    assert Split("", ',') == [""];
    assert Strip("") == "";
    assert "." + "" == ".";
  }

  /** DIR as the window entry point normalises it: no fragment when the key
      is absent or empty, else the comma-separated tokens, not stripped. */
  function NormalizeDirs(dir: Option<string>): (dirs: seq<string>)
    ensures dirs == [] <==> dir == None || dir == Some("")
    ensures dirs != [] ==> Join(dirs, ',') == dir.value
    ensures forall d :: d in dirs ==> ',' !in d
  {
    if dir.Some? && dir.value != "" then (JoinSplit(dir.value, ','); Split(dir.value, ',')) else []
  }

  /** `file_path.endswith(exts)` for a tuple of suffixes. */
  predicate EndsWithAny(path: string, exts: seq<string>) {
    exists e :: e in exts && EndsWith(path, e)
  }

  /** `any(directory in file_path for directory in dirs)`. */
  predicate ContainsAny(path: string, dirs: seq<string>) {
    exists d :: d in dirs && Contains(path, d)
  }

  /** The window entry point's `file_filter`: the suffix test unless the
      tuple is None or empty, and the fragment test unless the list is empty. */
  predicate Selected(path: string, exts: Option<seq<string>>, dirs: seq<string>) {
    (if exts.Some? && exts.value != [] then EndsWithAny(path, exts.value) else true)
    && (if dirs != [] then ContainsAny(path, dirs) else true)
  }

  /** The fragment test is all that a trailing comma in DIR leaves: the empty
      fragment occurs in every path, so "src/," selects by extension only. */
  lemma EmptyFragmentMatchesAll(path: string, exts: Option<seq<string>>, dirs: seq<string>)
    requires "" in dirs
    ensures Selected(path, exts, dirs) == Selected(path, exts, [])
  {
    assert StartsWith(path[0..], "");
  }

  /** The filter built from the configuration selects a path iff it ends with
      some normalised extension and, when DIR is given, contains one of its
      fragments. */
  lemma ConfiguredSelection(path: string, filterExt: Option<string>, dir: Option<string>)
    ensures Selected(path, ExtensionTuple(NormalizeExtensions(filterExt)), NormalizeDirs(dir))
            <==> (exists i :: 0 <= i < |NormalizeExtensions(filterExt)|
                              && EndsWith(path, NormalizeExtensions(filterExt)[i]))
                 && (dir == None || dir == Some("")
                     || exists d :: d in Split(dir.value, ',') && Contains(path, d))
  {
    ExtensionsNeverEmpty(filterExt);
    var exts := NormalizeExtensions(filterExt);
    if EndsWithAny(path, exts) {
      var e :| e in exts && EndsWith(path, e);
      var i :| 0 <= i < |exts| && exts[i] == e;
    }
  }

  /** The command-line entry point's `file_filter`: one of the given suffixes
      and the fragment "src/". */
  predicate CliSelected(path: string, exts: seq<string>) {
    EndsWithAny(path, exts) && Contains(path, "src/")
  }

  /** The command-line filter is the window filter with the one fragment
      "src/", as long as some extension is given; with none, endswith(())
      rejects every path where the window filter would accept all. */
  lemma CliFilterIsWindowFilter(path: string, exts: seq<string>)
    ensures exts != [] ==> (CliSelected(path, exts) <==> Selected(path, Some(exts), ["src/"]))
    ensures exts == [] ==> !CliSelected(path, exts)
  {
  }

  /** The worked example, configured as FILTER_EXT "md" and DIR "docs/". */
  lemma DocsMarkdownConfig()
    ensures NormalizeExtensions(Some("md")) == [".md"]
    ensures NormalizeDirs(Some("docs/")) == ["docs/"]
  {
    SplitNoSeparator("md", ',');
    StripUnpadded("md");
    assert "." + "md" == ".md";
    SplitNoSeparator("docs/", ',');
  }

  /** Of docs/readme.md, docs/notes.txt and src/main.md only the first is
      selected: the second fails the suffix test, the third the fragment test. */
  lemma DocsMarkdownSelectsReadme()
    ensures Selected("docs/readme.md", Some([".md"]), ["docs/"])
  {
    var p := "docs/readme.md";
    assert StartsWith(p[0..], "docs/");
    assert Contains(p, "docs/");
    assert EndsWith(p, ".md");
  }

  lemma DocsMarkdownSkipsNotes()
    ensures !Selected("docs/notes.txt", Some([".md"]), ["docs/"])
  {
    var p := "docs/notes.txt";
    assert p[|p| - 3] != '.';
    assert !EndsWith(p, ".md");
  }

  lemma DocsMarkdownSkipsSource()
    ensures !Selected("src/main.md", Some([".md"]), ["docs/"])
  {
    var p := "src/main.md";
    forall i | 0 <= i <= |p| ensures !StartsWith(p[i..], "docs/") {
      if i + 5 <= |p| {
        assert p[i..][0] == p[i];
        assert p[i] != 'd';
      }
    }
  }
}
