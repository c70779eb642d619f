/** The checks each entry point makes before it clones and indexes anything:
    the window entry point's configuration and credential checks
    (src/chat_with_llm.py) and the command-line entry point's argument check
    (src/simple_child_langchain.py). */
module Startup {
  import opened Strings
  import opened Wrappers
  import opened Selection

  /** The keys of config.yml the window entry point reads; None is an absent key. */
  datatype Config = Config(
    cloneUrl: Option<string>,
    branch: Option<string>,
    filterExt: Option<string>,
    dir: Option<string>,
    lang: Option<string>)

  /** What the window entry point goes on with once its checks pass. */
  datatype Settings = Settings(
    cloneUrl: string,
    branch: string,
    exts: Option<seq<string>>,
    dirs: seq<string>,
    lang: string,
    apiKey: string)

  /** The reasons the window entry point shows an error dialog and exits. */
  datatype StartupError = EnvNotLoaded | ConfigNotLoaded | RepositoryNotConfigured | ApiKeyMissing

  /** Python truthiness of an optional string: present and not empty. */
  predicate Given(v: Option<string>) {
    v.Some? && v.value != ""
  }

  /** The window entry point's start: `.env` loaded, config.yml truthy
      (None stands for any falsy YAML result: a file that parses to nothing
      or to an empty mapping), CLONE_URL and BRANCH
      given, OPENAI_API_KEY given, checked in that order; LANG defaults to "ja". */
  function Start(dotenvLoaded: bool, config: Option<Config>, apiKey: Option<string>)
    : (r: Result<Settings, StartupError>)
    ensures r.Ok? <==> dotenvLoaded && config.Some? && Given(config.value.cloneUrl)
                       && Given(config.value.branch) && Given(apiKey)
    ensures r == Err(EnvNotLoaded) <==> !dotenvLoaded
    ensures r == Err(ConfigNotLoaded) <==> dotenvLoaded && config.None?
    ensures r == Err(RepositoryNotConfigured) <==>
              dotenvLoaded && config.Some?
              && !(Given(config.value.cloneUrl) && Given(config.value.branch))
    ensures r.Ok? ==> r.value.cloneUrl == config.value.cloneUrl.value
                      && r.value.branch == config.value.branch.value
                      && r.value.exts == Some(NormalizeExtensions(config.value.filterExt))
                      && r.value.dirs == NormalizeDirs(config.value.dir)
                      && r.value.lang == (if config.value.lang.Some? then config.value.lang.value else "ja")
  {
    if !dotenvLoaded then Err(EnvNotLoaded)
    else if config.None? then Err(ConfigNotLoaded)
    else
      var c := config.value;
      var exts := NormalizeExtensions(c.filterExt);
      var dirs := NormalizeDirs(c.dir);
      var lang := if c.lang.Some? then c.lang.value else "ja";
      if !Given(c.cloneUrl) || !Given(c.branch) then Err(RepositoryNotConfigured)
      else if !Given(apiKey) then Err(ApiKeyMissing)
      else
        ExtensionsNeverEmpty(c.filterExt);
        Ok(Settings(c.cloneUrl.value, c.branch.value, ExtensionTuple(exts), dirs, lang, apiKey.value))
  }

  /** The answer language of the command line, restricted by argparse to "ja" or "en". */
  datatype Lang = Ja | En

  /** The parsed command line: argparse makes every option required and
      --filter_ext takes one or more values. */
  datatype CliArgs = CliArgs(cloneUrl: string, branch: string, filterExt: seq<string>, lang: Lang)

  /** A rejected command line: the line printed and the exit status. */
  datatype Rejection = Rejection(message: string, status: int)

  /** The argument check: a non-empty clone URL and extensions that all start
      with a dot; the branch is always a string after argparse, so that part
      of the check always passes and an empty branch is accepted. */
  function Validate(args: CliArgs): (r: Result<CliArgs, Rejection>)
    ensures r.Ok? <==> args.cloneUrl != "" && forall e :: e in args.filterExt ==> StartsWith(e, ".")
    ensures r.Ok? ==> r.value == args
    ensures r.Err? ==> r.error == Rejection("invalid args", 1)
  {
    if args.cloneUrl == "" || exists e :: e in args.filterExt && !StartsWith(e, ".") then
      Err(Rejection("invalid args", 1))
    else Ok(args)
  }

  /** Extensions the window entry point normalises would all pass the
      command line's dot check. */
  lemma NormalizedExtensionsPassValidation(filterExt: Option<string>, cloneUrl: string, branch: string, lang: Lang)
    requires cloneUrl != ""
    ensures Validate(CliArgs(cloneUrl, branch, NormalizeExtensions(filterExt), lang)).Ok?
  {
    ExtensionsNeverEmpty(filterExt);
  }
}
