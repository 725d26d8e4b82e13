/**
 What `configure_rdoc_files`, `api_main`, the options and the two `Task`
 subclasses promise, stated over the specification functions of `ApiTask`.
 */
module ApiTaskProperties {
  import opened Wrappers
  import LoadPath
  import opened ApiTask

  // ---------------------------------------------------------------------------
  // The interpolation and the per-component contributions
  // ---------------------------------------------------------------------------

  /** Every pattern becomes `root + "/" + pattern`, one for one and in order. */
  lemma {:induction false} PrefixedAt(root: string, patterns: seq<string>)
    ensures |Prefixed(root, patterns)| == |patterns|
    ensures forall j :: 0 <= j < |patterns| ==> Prefixed(root, patterns)[j] == root + "/" + patterns[j]
    decreases |patterns|
  {
    if patterns != [] {
      var n := |patterns| - 1;
      PrefixedAt(root, patterns[..n]);
      forall j | 0 <= j < n
        ensures Prefixed(root, patterns)[j] == root + "/" + patterns[j]
      {
        assert patterns[..n][j] == patterns[j];
      }
    }
  }

  /** The contribution of component `k` sits between those of the components before it and those after it. */
  lemma {:induction false} CollectSplit(roots: seq<string>, table: seq<Entry>, side: Side, lo: nat, k: nat, hi: nat)
    requires |roots| == |table| && lo <= k < hi <= |table|
    ensures Collect(roots, table, side, lo, hi) ==
            Collect(roots, table, side, lo, k) + Prefixed(roots[k], Patterns(table[k].rule, side))
            + Collect(roots, table, side, k + 1, hi)
    decreases hi
  {
    var before := Collect(roots, table, side, lo, k);
    var mine := Prefixed(roots[k], Patterns(table[k].rule, side));
    if hi == k + 1 {
      AppendEmpty(before + mine);
    } else {
      var last := Prefixed(roots[hi - 1], Patterns(table[hi - 1].rule, side));
      CollectSplit(roots, table, side, lo, k, hi - 1);
      AppendAssoc(before + mine, Collect(roots, table, side, k + 1, hi - 1), last);
    }
  }

  /** `x` is `root + "/" + pattern` for one of the components `lo` to `hi - 1` and one of its patterns on `side`. */
  ghost predicate FromComponent(roots: seq<string>, table: seq<Entry>, side: Side, lo: nat, hi: nat, x: string) {
    exists k, j :: lo <= k < hi && k < |table| && k < |roots| && 0 <= j < |Patterns(table[k].rule, side)| &&
                   x == roots[k] + "/" + Patterns(table[k].rule, side)[j]
  }

  /** The collected patterns are exactly the interpolations of the components' patterns: nothing is added and nothing is lost. */
  lemma {:induction false} CollectMembers(roots: seq<string>, table: seq<Entry>, side: Side, lo: nat, hi: nat)
    requires |roots| == |table| && hi <= |table|
    ensures forall x :: x in Collect(roots, table, side, lo, hi) <==> FromComponent(roots, table, side, lo, hi, x)
    decreases hi
  {
    if lo < hi {
      var n := hi - 1;
      var pats := Patterns(table[n].rule, side);
      CollectMembers(roots, table, side, lo, n);
      PrefixedAt(roots[n], pats);
      forall x | x in Collect(roots, table, side, lo, hi)
        ensures FromComponent(roots, table, side, lo, hi, x)
      {
        if x !in Collect(roots, table, side, lo, n) {
          var j :| 0 <= j < |pats| && Prefixed(roots[n], pats)[j] == x;
          assert x == roots[n] + "/" + Patterns(table[n].rule, side)[j];
        }
      }
      forall x | FromComponent(roots, table, side, lo, hi, x)
        ensures x in Collect(roots, table, side, lo, hi)
      {
        var k, j :| lo <= k < hi && k < |table| && k < |roots| && 0 <= j < |Patterns(table[k].rule, side)| &&
                    x == roots[k] + "/" + Patterns(table[k].rule, side)[j];
        if k < n {
          assert FromComponent(roots, table, side, lo, n, x);
        } else {
          assert x == Prefixed(roots[n], pats)[j];
        }
      }
    } else {
      assert forall x :: !FromComponent(roots, table, side, lo, hi, x);
    }
  }

  /** An entry without `:exclude` (`Array(nil)`) contributes no exclusion. */
  lemma NilAddsNothing(roots: seq<string>, table: seq<Entry>, k: nat)
    requires |roots| == |table| && k < |table| && table[k].rule.excludes == Nil
    ensures Collect(roots, table, Exclude, 0, |table|) ==
            Collect(roots, table, Exclude, 0, k) + Collect(roots, table, Exclude, k + 1, |table|)
  {
    CollectSplit(roots, table, Exclude, 0, k, |table|);
    AppendEmpty(Collect(roots, table, Exclude, 0, k));
  }

  /** A single `:exclude` string (`Array("p")` is `["p"]`) contributes exactly `root/p`. */
  lemma SingleExcludeAddsOne(roots: seq<string>, table: seq<Entry>, k: nat)
    requires |roots| == |table| && k < |table| && table[k].rule.excludes.Str?
    ensures Collect(roots, table, Exclude, 0, |table|) ==
            Collect(roots, table, Exclude, 0, k) + [roots[k] + "/" + table[k].rule.excludes.pattern]
            + Collect(roots, table, Exclude, k + 1, |table|)
  {
    CollectSplit(roots, table, Exclude, 0, k, |table|);
    var p := table[k].rule.excludes.pattern;
    assert Patterns(table[k].rule, Exclude) == [p];
    PrefixedOne(roots[k], p);
  }

  lemma PrefixedOne(root: string, p: string)
    ensures Prefixed(root, [p]) == [root + "/" + p]
  {
  }

  /** `RDOC_FILES` lists six components in this order; each includes its README and CHANGELOG first. */
  lemma RdocFilesTable()
    ensures |RdocFiles| == 6
    ensures RdocFiles[0].component == "activesupport" && RdocFiles[1].component == "activerecord"
    ensures RdocFiles[2].component == "activemodel" && RdocFiles[3].component == "actionpack"
    ensures RdocFiles[4].component == "actionmailer" && RdocFiles[5].component == "railties"
    ensures forall k :: 0 <= k < |RdocFiles| ==>
              |ArrayOf(RdocFiles[k].rule.includes)| >= 3 &&
              ArrayOf(RdocFiles[k].rule.includes)[0] == "README.rdoc" &&
              ArrayOf(RdocFiles[k].rule.includes)[1] == "CHANGELOG.md"
  {
  }

  /** In `RDOC_FILES` exactly activemodel and railties have no `:exclude`; every other entry has one string. */
  lemma RdocFilesExcludeShapes()
    ensures forall k :: 0 <= k < |RdocFiles| ==>
              (RdocFiles[k].rule.excludes == Nil <==> RdocFiles[k].component in {"activemodel", "railties"})
    ensures forall k :: 0 <= k < |RdocFiles| ==> RdocFiles[k].rule.excludes.Nil? || RdocFiles[k].rule.excludes.Str?
    ensures forall k :: 0 <= k < |RdocFiles| ==> RdocFiles[k].rule.includes.Arr?
  {
  }

  // ---------------------------------------------------------------------------
  // The file list of a whole task
  // ---------------------------------------------------------------------------

  /** The root `component_root_dir` returns for component `k` of the table. */
  function RootOf(v: Variant, k: nat): (r: string)
    requires Configurable(v) && k < |RdocFiles|
    ensures Some(r) == ComponentRootDir(v, RdocFiles[k].component)
  {
    ComponentRootDir(v, RdocFiles[k].component).value
  }

  /** The main page is the first file handed to the renderer, and it is the page `-m` names. */
  lemma MainPageFirst(v: Variant)
    requires FileLists(v).Some?
    ensures |FileLists(v).value.included| > 0
    ensures FileLists(v).value.included[0] == ApiMain(v).value
    ensures FileLists(v).value.included[0] == OptionList(v, ApiMain(v).value)[1]
    ensures FileLists(v).value.included[0] == RootOf(v, 5) + MainPage
    ensures RdocFiles[5].component == "railties"
  {
  }

  /** Component `k` adds `root + "/" + pattern` for each of its include patterns, after the main page and the components before it. */
  lemma ComponentIncludes(v: Variant, k: nat)
    requires FileLists(v).Some? && k < |RdocFiles|
    ensures var roots := Roots(v, RdocFiles);
            FileLists(v).value.included ==
              [ApiMain(v).value] + Collect(roots, RdocFiles, Include, 0, k)
              + Prefixed(RootOf(v, k), ArrayOf(RdocFiles[k].rule.includes))
              + Collect(roots, RdocFiles, Include, k + 1, |RdocFiles|)
  {
    var roots := Roots(v, RdocFiles);
    CollectSplit(roots, RdocFiles, Include, 0, k, |RdocFiles|);
    var a := Collect(roots, RdocFiles, Include, 0, k);
    var b := Prefixed(roots[k], ArrayOf(RdocFiles[k].rule.includes));
    var c := Collect(roots, RdocFiles, Include, k + 1, |RdocFiles|);
    AppendAssoc([ApiMain(v).value], a + b, c);
    AppendAssoc([ApiMain(v).value], a, b);
  }

  /** Every file handed to the renderer is the main page or a pattern of some component under that component's root, and each such pattern is handed over. */
  lemma IncludedFiles(v: Variant)
    requires FileLists(v).Some?
    ensures forall x :: x in FileLists(v).value.included <==>
              x == ApiMain(v).value || FromComponent(Roots(v, RdocFiles), RdocFiles, Include, 0, |RdocFiles|, x)
  {
    CollectMembers(Roots(v, RdocFiles), RdocFiles, Include, 0, |RdocFiles|);
  }

  /** The exclusions: the vendored code of activesupport, activerecord, actionpack and actionmailer, in that order, and nothing else. */
  lemma ExcludedFiles(v: Variant)
    requires FileLists(v).Some?
    ensures FileLists(v).value.excluded == [
              RootOf(v, 0) + "/" + "lib/active_support/vendor/*",
              RootOf(v, 1) + "/" + "lib/active_record/vendor/*",
              RootOf(v, 3) + "/" + "lib/action_controller/vendor/*",
              RootOf(v, 4) + "/" + "lib/action_mailer/vendor/*"]
    ensures RdocFiles[0].component == "activesupport" && RdocFiles[1].component == "activerecord"
    ensures RdocFiles[3].component == "actionpack" && RdocFiles[4].component == "actionmailer"
  {
    var roots := Roots(v, RdocFiles);
    RdocFilesExcludeValues();
    ExcludesOfSix(roots, RdocFiles, "lib/active_support/vendor/*", "lib/active_record/vendor/*",
                  "lib/action_controller/vendor/*", "lib/action_mailer/vendor/*");
    assert roots[0] == RootOf(v, 0) && roots[1] == RootOf(v, 1) && roots[3] == RootOf(v, 3) && roots[4] == RootOf(v, 4);
  }

  /** A six-entry table whose third and sixth entries have no `:exclude` and the others one string each. */
  lemma ExcludesOfSix(roots: seq<string>, t: seq<Entry>, p0: string, p1: string, p3: string, p4: string)
    requires |roots| == |t| == 6
    requires t[0].rule.excludes == Str(p0) && t[1].rule.excludes == Str(p1) && t[2].rule.excludes == Nil
    requires t[3].rule.excludes == Str(p3) && t[4].rule.excludes == Str(p4) && t[5].rule.excludes == Nil
    ensures Collect(roots, t, Exclude, 0, 6) ==
            [roots[0] + "/" + p0, roots[1] + "/" + p1, roots[3] + "/" + p3, roots[4] + "/" + p4]
  {
    var e0, e1, e3, e4 := roots[0] + "/" + p0, roots[1] + "/" + p1, roots[3] + "/" + p3, roots[4] + "/" + p4;
    assert Collect(roots, t, Exclude, 0, 1) == [e0] by {
      SnocExclude(roots, t, 0);
    }
    assert Collect(roots, t, Exclude, 0, 3) == [e0, e1] by {
      SnocExclude(roots, t, 1);
      SnocExclude(roots, t, 2);
    }
    assert Collect(roots, t, Exclude, 0, 5) == [e0, e1, e3, e4] by {
      SnocExclude(roots, t, 3);
      SnocExclude(roots, t, 4);
    }
    SnocExclude(roots, t, 5);
  }

  lemma RdocFilesExcludeValues()
    ensures RdocFiles[0].rule.excludes == Str("lib/active_support/vendor/*")
    ensures RdocFiles[1].rule.excludes == Str("lib/active_record/vendor/*")
    ensures RdocFiles[2].rule.excludes == Nil
    ensures RdocFiles[3].rule.excludes == Str("lib/action_controller/vendor/*")
    ensures RdocFiles[4].rule.excludes == Str("lib/action_mailer/vendor/*")
    ensures RdocFiles[5].rule.excludes == Nil
  {
  }

  /** One more entry of the table adds its `:exclude`, which is absent or one string. */
  lemma SnocExclude(roots: seq<string>, table: seq<Entry>, i: nat)
    requires |roots| == |table| && i < |table| && !table[i].rule.excludes.Arr?
    ensures table[i].rule.excludes.Nil? ==>
              Collect(roots, table, Exclude, 0, i + 1) == Collect(roots, table, Exclude, 0, i)
    ensures table[i].rule.excludes.Str? ==>
              Collect(roots, table, Exclude, 0, i + 1) ==
              Collect(roots, table, Exclude, 0, i) + [roots[i] + "/" + table[i].rule.excludes.pattern]
  {
    AppendEmpty(Collect(roots, table, Exclude, 0, i));
    if table[i].rule.excludes.Str? {
      PrefixedOne(roots[i], table[i].rule.excludes.pattern);
    }
  }

  /** The file list exists exactly when every component of the table has a root; `initialize` raises otherwise. */
  lemma FileListsDefinedIff(v: Variant)
    ensures FileLists(v).Some? <==>
            forall k :: 0 <= k < |RdocFiles| ==> ComponentRootDir(v, RdocFiles[k].component).Some?
  {
    assert RdocFiles[5].component == "railties";
  }

  // ---------------------------------------------------------------------------
  // RepoTask
  // ---------------------------------------------------------------------------

  /** In the repository every component's root is its own directory, so the task always configures. */
  lemma RepoRoots(h: string)
    ensures Configurable(RepoTask(h))
    ensures Roots(RepoTask(h), RdocFiles) ==
            ["activesupport", "activerecord", "activemodel", "actionpack", "actionmailer", "railties"]
    ensures ApiMain(RepoTask(h)) == Some("railties" + MainPage)
  {
  }

  /** The repository's exclusions, as relative paths. */
  lemma RepoExcludedFiles(h: string)
    ensures FileLists(RepoTask(h)).value.excluded == [
              "activesupport" + "/" + "lib/active_support/vendor/*",
              "activerecord" + "/" + "lib/active_record/vendor/*",
              "actionpack" + "/" + "lib/action_controller/vendor/*",
              "actionmailer" + "/" + "lib/action_mailer/vendor/*"]
  {
    var v := RepoTask(h);
    RepoRoots(h);
    ExcludedFiles(v);
    assert RootOf(v, 0) == "activesupport" && RootOf(v, 1) == "activerecord";
    assert RootOf(v, 3) == "actionpack" && RootOf(v, 4) == "actionmailer";
  }

  // ---------------------------------------------------------------------------
  // AppTask
  // ---------------------------------------------------------------------------

  /** An application's main page lies in the directory of the first load-path entry that matches railties. */
  lemma AppApiMain(loadPath: seq<string>, version: string)
    ensures ApiMain(AppTask(loadPath, version)).None? <==>
            forall e :: e in loadPath ==> !LoadPath.EntryMatches(e, "railties")
    ensures ApiMain(AppTask(loadPath, version)).Some? ==>
            exists k, root :: LoadPath.IsFirstMatch(loadPath, "railties", k) && root + "/lib" == loadPath[k]
                              && ApiMain(AppTask(loadPath, version)).value == root + MainPage
  {
  }

  /** No load-path entry has the shape `p + gem + s + "/lib"`. */
  ghost predicate Unmatched(loadPath: seq<string>, gem: string) {
    forall e, p, s :: e in loadPath ==> !LoadPath.IsMatch(e, gem, p, s)
  }

  /** An application task fails exactly when some component of the table has no matching load-path entry. */
  lemma AppFileListsFailIff(loadPath: seq<string>, version: string)
    ensures FileLists(AppTask(loadPath, version)).None? <==>
            exists k :: 0 <= k < |RdocFiles| && Unmatched(loadPath, RdocFiles[k].component)
  {
    var v := AppTask(loadPath, version);
    FileListsDefinedIff(v);
    forall k | 0 <= k < |RdocFiles|
      ensures ComponentRootDir(v, RdocFiles[k].component).None? <==> Unmatched(loadPath, RdocFiles[k].component)
    {
      LoadPath.AppRootDirFailsIff(loadPath, RdocFiles[k].component);
    }
  }

  // ---------------------------------------------------------------------------
  // Options and version
  // ---------------------------------------------------------------------------

  /** The value after the first occurrence of `flag`. */
  function FlagValue(opts: seq<string>, flag: string): Option<string>
    decreases |opts|
  {
    if |opts| < 2 then None
    else if opts[0] == flag then Some(opts[1])
    else FlagValue(opts[1..], flag)
  }

  predicate IsFlag(s: string) {
    |s| == 2 && s[0] == '-'
  }

  /** Reading the options back gives the main page, the encoding, the generator and the template; `-g` is there for RepoTask only. */
  lemma OptionsRoundTrip(v: Variant, apiMain: string)
    requires !IsFlag(apiMain)
    ensures FlagValue(OptionList(v, apiMain), "-m") == Some(apiMain)
    ensures FlagValue(OptionList(v, apiMain), "-e") == Some("UTF-8")
    ensures FlagValue(OptionList(v, apiMain), "-f") == Some("sdoc")
    ensures FlagValue(OptionList(v, apiMain), "-T") == Some("rails")
    ensures "-g" in OptionList(v, apiMain) <==> v.RepoTask?
    ensures OptionList(v, apiMain)[..8] == BaseOptions(apiMain)
  {
    var o := OptionList(v, apiMain);
    OptionsSpelled(v, apiMain);
    assert FlagValue(o, "-m") == Some(apiMain) by {
      FlagValueAt(o, 0, "-m");
    }
    assert FlagValue(o, "-e") == Some("UTF-8") by {
      FlagValueAt(o, 2, "-e");
    }
    assert FlagValue(o, "-f") == Some("sdoc") by {
      FlagValueAt(o, 4, "-f");
    }
    assert FlagValue(o, "-T") == Some("rails") by {
      assert !IsFlag("UTF-8") && !IsFlag("sdoc");
      FlagValueAt(o, 6, "-T");
    }
    assert !IsFlag("UTF-8") && !IsFlag("sdoc") && !IsFlag("rails");
    assert forall j :: 0 <= j < 8 ==> o[j] != "-g";
    if v.RepoTask? {
      assert o[8] == "-g";
    }
  }

  /** The options written out one by one. */
  lemma OptionsSpelled(v: Variant, apiMain: string)
    ensures var o := OptionList(v, apiMain);
            |o| == (if v.RepoTask? then 9 else 8) &&
            o[0] == "-m" && o[1] == apiMain && o[2] == "-e" && o[3] == "UTF-8" &&
            o[4] == "-f" && o[5] == "sdoc" && o[6] == "-T" && o[7] == "rails" &&
            o[..8] == BaseOptions(apiMain) && (v.RepoTask? ==> o[8] == "-g")
  {
  }

  /** The value after the first occurrence of `flag` at `i` is the one read back. */
  lemma {:induction false} FlagValueAt(opts: seq<string>, i: nat, flag: string)
    requires i + 1 < |opts| && opts[i] == flag
    requires forall j :: 0 <= j < i ==> opts[j] != flag
    ensures FlagValue(opts, flag) == Some(opts[i + 1])
    decreases i
  {
    if i > 0 {
      var rest := opts[1..];
      assert forall j :: 0 <= j < i - 1 ==> rest[j] == opts[j + 1];
      FlagValueAt(rest, i - 1, flag);
    }
  }

  /** The main page is never mistaken for a flag, so the round trip holds for every configured task. */
  lemma ApiMainNotFlag(v: Variant)
    requires ApiMain(v).Some?
    ensures !IsFlag(ApiMain(v).value)
  {
  }

  /** The version `setup_horo_variables` publishes for a checkout at commit `abcdef1234567…`. */
  lemma RepoVersionExample()
    ensures RailsVersion(RepoTask("abcdef1234567\n")) == "master@abcdef1"
  {
  }

  /** Only the first seven characters of the commit count: two commits alike there publish the same version. */
  lemma RepoVersionPrefix(h1: string, h2: string)
    requires |h1| >= 7 && |h2| >= 7 && h1[..7] == h2[..7]
    ensures RailsVersion(RepoTask(h1)) == RailsVersion(RepoTask(h2))
  {
  }
}
