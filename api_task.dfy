/**
 The Rails API documentation task: the per-component rule table, how each
 component's root directory is found, the renderer options, the files handed
 to the renderer and the two environment variables the renderer reads.

 The Ruby code has a base class `Task` and two subclasses that differ only in
 `component_root_dir`, `api_dir`, `rails_version` and one extra option. Here the
 subclass is the `Variant` datatype, carrying the inputs that the Ruby code
 reads from the outside at the moment it needs them: the output of
 `git rev-parse HEAD` for `RepoTask`, the load path `$:` and
 `Rails::VERSION::STRING` for `AppTask`.
 */
module ApiTask {
  import opened Wrappers
  import LoadPath

  /** The value stored under `:include` or `:exclude`: absent, one string, or an array. */
  datatype PatternValue = Nil | Str(pattern: string) | Arr(patterns: seq<string>)

  /** Ruby's `Array(x)` on those three shapes: nil becomes empty, a string is wrapped, an array is kept. */
  function ArrayOf(v: PatternValue): (r: seq<string>)
    ensures v.Nil? ==> r == []
    ensures v.Str? ==> r == [v.pattern]
    ensures v.Arr? ==> r == v.patterns
  {
    match v
    case Nil => []
    case Str(p) => [p]
    case Arr(ps) => ps
  }

  datatype Rule = Rule(includes: PatternValue, excludes: PatternValue)

  /** One `component => rule` pair of the ordered hash `RDOC_FILES`. */
  datatype Entry = Entry(component: string, rule: Rule)

  /** `RDOC_FILES`, in the hash's insertion order. */
  const RdocFiles: seq<Entry> := [
    Entry("activesupport", Rule(
      Arr(["README.rdoc", "CHANGELOG.md", "lib/active_support/**/*.rb"]),
      Str("lib/active_support/vendor/*"))),
    Entry("activerecord", Rule(
      Arr(["README.rdoc", "CHANGELOG.md", "lib/active_record/**/*.rb"]),
      Str("lib/active_record/vendor/*"))),
    Entry("activemodel", Rule(
      Arr(["README.rdoc", "CHANGELOG.md", "lib/active_model/**/*.rb"]),
      Nil)),
    Entry("actionpack", Rule(
      Arr(["README.rdoc", "CHANGELOG.md", "lib/abstract_controller/**/*.rb", "lib/action_controller/**/*.rb",
           "lib/action_dispatch/**/*.rb", "lib/action_view/**/*.rb"]),
      Str("lib/action_controller/vendor/*"))),
    Entry("actionmailer", Rule(
      Arr(["README.rdoc", "CHANGELOG.md", "lib/action_mailer/**/*.rb"]),
      Str("lib/action_mailer/vendor/*"))),
    Entry("railties", Rule(
      Arr(["README.rdoc", "CHANGELOG.md", "MIT-LICENSE", "lib/**/*.rb"]),
      Nil))
  ]

  /** Which subclass is instantiated, with the outside inputs it reads. */
  datatype Variant =
    | RepoTask(gitHead: string)
    | AppTask(loadPath: seq<string>, railsVersionString: string)

  /** `component_root_dir`: the identity for RepoTask, the load-path search for AppTask. */
  function ComponentRootDir(v: Variant, component: string): (r: Option<string>)
    ensures v.RepoTask? ==> r == Some(component)
    ensures v.AppTask? ==> (r.None? <==> forall e :: e in v.loadPath ==> !LoadPath.EntryMatches(e, component))
    ensures v.AppTask? && r.Some? ==> r.value + "/lib" in v.loadPath && LoadPath.EntryMatches(r.value + "/lib", component)
  {
    match v
    case RepoTask(_) => Some(component)
    case AppTask(loadPath, _) => LoadPath.AppRootDir(loadPath, component)
  }

  const MainPage: string := "/RDOC_MAIN.rdoc"

  /** `api_main`: the landing page inside the railties root, or None where the root lookup raises. */
  function ApiMain(v: Variant): (r: Option<string>)
    ensures r.None? <==> ComponentRootDir(v, "railties").None?
    ensures r.Some? ==> |r.value| >= |MainPage| && r.value[|r.value| - |MainPage|..] == MainPage
    ensures r.Some? ==> Some(r.value[..|r.value| - |MainPage|]) == ComponentRootDir(v, "railties")
  {
    match ComponentRootDir(v, "railties")
    case None => None
    case Some(root) => Some(root + MainPage)
  }

  const RepoApiDir: string := "doc/rdoc"
  const AppApiDir: string := "doc/api"

  /** `api_dir`, the output directory: it tells the two subclasses apart. */
  function ApiDir(v: Variant): (r: string)
    ensures v.RepoTask? <==> r == RepoApiDir
    ensures v.AppTask? <==> r == AppApiDir
  {
    if v.RepoTask? then RepoApiDir else AppApiDir
  }

  function Min(a: int, b: int): int {
    if a < b then a else b
  }

  /** `rails_version`: `"master@"` and the first seven characters of the commit hash, or the framework's version string. */
  function RailsVersion(v: Variant): (r: string)
    ensures v.RepoTask? ==> |r| == 7 + Min(7, |v.gitHead|) && r[..7] == "master@" && r[7..] <= v.gitHead
    ensures v.AppTask? ==> r == v.railsVersionString
  {
    match v
    case RepoTask(h) => "master@" + h[..Min(7, |h|)]
    case AppTask(_, s) => s
  }

  /** The options `Task#initialize` appends: main page, encoding, generator and template. */
  function BaseOptions(apiMain: string): (r: seq<string>)
    ensures |r| == 8 && r[0] == "-m" && r[1] == apiMain
  {
    ["-m", apiMain] + ["-e", "UTF-8"] + ["-f", "sdoc"] + ["-T", "rails"]
  }

  /** All options of a task: `RepoTask#initialize` adds `-g` after the base ones. */
  function OptionList(v: Variant, apiMain: string): (r: seq<string>)
    ensures |r| == 9 <==> v.RepoTask?
    ensures |r| == 8 <==> v.AppTask?
    ensures r[..8] == BaseOptions(apiMain)
    ensures v.RepoTask? ==> r[8] == "-g"
  {
    BaseOptions(apiMain) + (if v.RepoTask? then ["-g"] else [])
  }

  /** The rake file list, kept as the patterns handed to `include` and to `exclude`. */
  datatype FileList = FileList(included: seq<string>, excluded: seq<string>)

  datatype Side = Include | Exclude

  function Patterns(rule: Rule, side: Side): seq<string> {
    if side == Include then ArrayOf(rule.includes) else ArrayOf(rule.excludes)
  }

  /** The interpolation `"#{root}/#{pattern}"` applied to every pattern in order. */
  function Prefixed(root: string, patterns: seq<string>): seq<string>
    decreases |patterns|
  {
    if patterns == [] then []
    else Prefixed(root, patterns[..|patterns| - 1]) + [root + "/" + patterns[|patterns| - 1]]
  }

  /** Every component of `table` has a root; otherwise `component_root_dir` raises. */
  predicate Resolvable(v: Variant, table: seq<Entry>) {
    forall k :: 0 <= k < |table| ==> ComponentRootDir(v, table[k].component).Some?
  }

  /** The root of every component of `table`, in table order. */
  function Roots(v: Variant, table: seq<Entry>): (r: seq<string>)
    requires Resolvable(v, table)
    ensures |r| == |table|
    ensures forall k :: 0 <= k < |table| ==> Some(r[k]) == ComponentRootDir(v, table[k].component)
  {
    seq(|table|, k requires 0 <= k < |table| => ComponentRootDir(v, table[k].component).value)
  }

  /** What the components `lo` to `hi - 1` of the table contribute on one side, component after component, pattern after pattern. */
  function Collect(roots: seq<string>, table: seq<Entry>, side: Side, lo: nat, hi: nat): seq<string>
    requires |roots| == |table| && hi <= |table|
    decreases hi
  {
    if hi <= lo then []
    else Collect(roots, table, side, lo, hi - 1) + Prefixed(roots[hi - 1], Patterns(table[hi - 1].rule, side))
  }

  lemma AppendAssoc<T>(a: seq<T>, b: seq<T>, c: seq<T>)
    ensures (a + b) + c == a + (b + c)
  {
  }

  lemma AppendEmpty<T>(a: seq<T>)
    ensures [] + a == a && a + [] == a
  {
  }

  lemma PrefixedSnoc(root: string, patterns: seq<string>, j: nat)
    requires j < |patterns|
    ensures Prefixed(root, patterns[..j + 1]) == Prefixed(root, patterns[..j]) + [root + "/" + patterns[j]]
  {
    assert patterns[..j + 1][..j] == patterns[..j];
  }

  lemma PrefixedAll(root: string, patterns: seq<string>)
    ensures Prefixed(root, patterns[..0]) == [] && Prefixed(root, patterns[..|patterns|]) == Prefixed(root, patterns)
  {
    assert patterns[..|patterns|] == patterns;
  }

  /** `initialize` returns normally: the railties root and every component root can be found. */
  predicate Configurable(v: Variant) {
    ApiMain(v).Some? && Resolvable(v, RdocFiles)
  }

  /** The file list `configure_rdoc_files` builds: the main page first, then each component's patterns. */
  function FileLists(v: Variant): (r: Option<FileList>)
    ensures r.Some? <==> Configurable(v)
    ensures r.Some? ==> |r.value.included| > 0 && r.value.included[0] == ApiMain(v).value
  {
    if !Configurable(v) then None
    else
      var roots := Roots(v, RdocFiles);
      Some(FileList([ApiMain(v).value] + Collect(roots, RdocFiles, Include, 0, |RdocFiles|),
                    Collect(roots, RdocFiles, Exclude, 0, |RdocFiles|)))
  }

  const HoroProjectName: string := "HORO_PROJECT_NAME"
  const HoroProjectVersion: string := "HORO_PROJECT_VERSION"
  const ProjectName: string := "Ruby on Rails"
  const Title: string := "Ruby on Rails API"

  /** A Rails API documentation task as Ruby holds it once `initialize` has returned. */
  class Task {
    const name: string
    const variant: Variant
    var title: string
    var rdocDir: string
    var options: seq<string>
    var rdocInclude: seq<string>
    var rdocExclude: seq<string>

    /**
     `Task#initialize` (and, for RepoTask, `RepoTask#initialize`). The superclass
     leaves the options and the include and exclude lists empty; the default
     ignore patterns of `Rake::FileList` are not modelled. Ruby raises when a component
     root cannot be found, so a task exists only when every root resolves.
     */
    constructor (name: string, variant: Variant)
      requires Configurable(variant)
      ensures this.name == name && this.variant == variant
      ensures title == Title && rdocDir == ApiDir(variant)
      ensures options == OptionList(variant, ApiMain(variant).value)
      ensures rdocInclude == FileLists(variant).value.included
      ensures rdocExclude == FileLists(variant).value.excluded
    {
      this.name := name;
      this.variant := variant;
      title := "";
      rdocDir := "html";
      options := [];
      rdocInclude := [];
      rdocExclude := [];
      new;
      title := Title;
      rdocDir := ApiDir(variant);
      var main := ApiMain(variant).value;
      options := options + ["-m", main];
      options := options + ["-e", "UTF-8"];
      options := options + ["-f", "sdoc"];
      options := options + ["-T", "rails"];
      // The state `configure_rdoc_files` starts from; stating it here keeps the proof after the call small.
      assert title == Title && rdocDir == ApiDir(variant) && options == BaseOptions(main);
      assert rdocInclude == [] && rdocExclude == [];
      ConfigureRdocFiles();
      AppendEmpty(FileLists(variant).value.included);
      AppendEmpty(FileLists(variant).value.excluded);
      if variant.RepoTask? {
        options := options + ["-g"];
      }
    }

    /** `configure_rdoc_files`: adds the main page, then the patterns of every component of the table. */
    method ConfigureRdocFiles()
      requires Configurable(variant)
      modifies this`rdocInclude, this`rdocExclude
      ensures rdocInclude == old(rdocInclude) + FileLists(variant).value.included
      ensures rdocExclude == old(rdocExclude) + FileLists(variant).value.excluded
    {
      ghost var include0 := rdocInclude;
      var main := ApiMain(variant).value;
      rdocInclude := rdocInclude + [main];
      AddComponents(RdocFiles);
      AppendAssoc(include0, [main], Collect(Roots(variant, RdocFiles), RdocFiles, Include, 0, |RdocFiles|));
    }

    /** The `RDOC_FILES.each` loop of `configure_rdoc_files`, over any table. */
    method AddComponents(table: seq<Entry>)
      requires Resolvable(variant, table)
      modifies this`rdocInclude, this`rdocExclude
      ensures rdocInclude == old(rdocInclude) + Collect(Roots(variant, table), table, Include, 0, |table|)
      ensures rdocExclude == old(rdocExclude) + Collect(Roots(variant, table), table, Exclude, 0, |table|)
    {
      ghost var roots := Roots(variant, table);
      ghost var include0, exclude0 := rdocInclude, rdocExclude;
      var i := 0;
      while i < |table|
        invariant 0 <= i <= |table|
        invariant rdocInclude == include0 + Collect(roots, table, Include, 0, i)
        invariant rdocExclude == exclude0 + Collect(roots, table, Exclude, 0, i)
      {
        var cdr := ComponentRootDir(variant, table[i].component).value;
        assert cdr == roots[i];
        IncludePatterns(cdr, ArrayOf(table[i].rule.includes));
        ExcludePatterns(cdr, ArrayOf(table[i].rule.excludes));
        AppendAssoc(include0, Collect(roots, table, Include, 0, i), Prefixed(cdr, Patterns(table[i].rule, Include)));
        AppendAssoc(exclude0, Collect(roots, table, Exclude, 0, i), Prefixed(cdr, Patterns(table[i].rule, Exclude)));
        i := i + 1;
      }
    }

    /** Hands `cdr + "/" + pattern` to the file list's `include`, for each include pattern in order. */
    method IncludePatterns(cdr: string, patterns: seq<string>)
      modifies this`rdocInclude
      ensures rdocInclude == old(rdocInclude) + Prefixed(cdr, patterns)
    {
      PrefixedAll(cdr, patterns);
      var j := 0;
      while j < |patterns|
        invariant 0 <= j <= |patterns|
        invariant rdocInclude == old(rdocInclude) + Prefixed(cdr, patterns[..j])
      {
        PrefixedSnoc(cdr, patterns, j);
        AppendAssoc(old(rdocInclude), Prefixed(cdr, patterns[..j]), [cdr + "/" + patterns[j]]);
        rdocInclude := rdocInclude + [cdr + "/" + patterns[j]];
        j := j + 1;
      }
    }

    /** Hands `cdr + "/" + pattern` to the file list's `exclude`, for each exclude pattern in order. */
    method ExcludePatterns(cdr: string, patterns: seq<string>)
      modifies this`rdocExclude
      ensures rdocExclude == old(rdocExclude) + Prefixed(cdr, patterns)
    {
      PrefixedAll(cdr, patterns);
      var j := 0;
      while j < |patterns|
        invariant 0 <= j <= |patterns|
        invariant rdocExclude == old(rdocExclude) + Prefixed(cdr, patterns[..j])
      {
        PrefixedSnoc(cdr, patterns, j);
        AppendAssoc(old(rdocExclude), Prefixed(cdr, patterns[..j]), [cdr + "/" + patterns[j]]);
        rdocExclude := rdocExclude + [cdr + "/" + patterns[j]];
        j := j + 1;
      }
    }

    /** `setup_horo_variables`: writes the project name and version into the environment. */
    method SetupHoroVariables(env: map<string, string>) returns (updated: map<string, string>)
      ensures updated.Keys == env.Keys + {HoroProjectName, HoroProjectVersion}
      ensures updated[HoroProjectName] == ProjectName
      ensures updated[HoroProjectVersion] == RailsVersion(variant)
      ensures forall k :: k in env && k != HoroProjectName && k != HoroProjectVersion ==> updated[k] == env[k]
    {
      updated := env[HoroProjectName := ProjectName];
      updated := updated[HoroProjectVersion := RailsVersion(variant)];
    }
  }
}
