/**
 How `AppTask#component_root_dir` finds an installed gem: it greps the load
 path with the regular expression `gem_name[\w.-]*` followed by `/lib\z`, takes the first
 entry that matches and drops that entry's last four characters (`/lib`).

 The regular expression is unanchored at the start and anchored at the very
 end of the string by `\z`. Taken literally (the component names have no
 regular-expression metacharacters), an entry matches exactly when it can be
 written `p + gem + s + "/lib"` for some prefix `p` and some `s` made only of
 characters of the class `[\w.-]`, that is `[A-Za-z0-9_.-]`.
 */
module LoadPath {
  import opened Wrappers

  /** A character of the class `[\w.-]`; Ruby's `\w` is `[A-Za-z0-9_]`. */
  predicate SuffixChar(c: char) {
    ('a' <= c <= 'z') || ('A' <= c <= 'Z') || ('0' <= c <= '9') || c == '_' || c == '.' || c == '-'
  }

  predicate SuffixChars(s: string) {
    forall i :: 0 <= i < |s| ==> SuffixChar(s[i])
  }

  /** The declarative reading of the regular expression: `entry` splits as `p + gem + s + "/lib"`. */
  ghost predicate IsMatch(entry: string, gem: string, p: string, s: string) {
    entry == p + gem + s + "/lib" && SuffixChars(s)
  }

  /** `gem` occurs in `body` at offset `k` and only suffix characters follow it. */
  ghost predicate OccursAt(body: string, gem: string, k: nat) {
    k + |gem| <= |body| && body[k..k + |gem|] == gem && SuffixChars(body[k + |gem|..])
  }

  /** Tries every start offset from `i` on, as the regular-expression engine does. */
  function MatchesFrom(body: string, gem: string, i: nat): (b: bool)
    ensures b ==> i + |gem| <= |body|
    decreases |body| - i
  {
    if i + |gem| > |body| then false
    else if body[i..i + |gem|] == gem && SuffixChars(body[i + |gem|..]) then true
    else MatchesFrom(body, gem, i + 1)
  }

  /** `entry` matches the regular expression built from `gem` (see the module comment). */
  predicate EntryMatches(entry: string, gem: string): (b: bool)
    ensures b ==> |gem| + 4 <= |entry| && entry[|entry| - 4..] == "/lib"
  {
    |entry| >= 4 && entry[|entry| - 4..] == "/lib" && MatchesFrom(entry[..|entry| - 4], gem, 0)
  }

  lemma {:induction false} MatchesFromSound(body: string, gem: string, i: nat)
    requires MatchesFrom(body, gem, i)
    ensures exists k: nat :: i <= k && OccursAt(body, gem, k)
    decreases |body| - i
  {
    if body[i..i + |gem|] == gem && SuffixChars(body[i + |gem|..]) {
      assert OccursAt(body, gem, i);
    } else {
      MatchesFromSound(body, gem, i + 1);
    }
  }

  lemma {:induction false} MatchesFromComplete(body: string, gem: string, i: nat, k: nat)
    requires i <= k && OccursAt(body, gem, k)
    ensures MatchesFrom(body, gem, i)
    decreases k - i
  {
    if i < k && !(body[i..i + |gem|] == gem && SuffixChars(body[i + |gem|..])) {
      MatchesFromComplete(body, gem, i + 1, k);
    }
  }

  /** The search agrees with the declarative reading of the regular expression, both ways. */
  lemma EntryMatchesIff(entry: string, gem: string)
    ensures EntryMatches(entry, gem) <==> exists p, s :: IsMatch(entry, gem, p, s)
  {
    if EntryMatches(entry, gem) {
      var body := entry[..|entry| - 4];
      MatchesFromSound(body, gem, 0);
      var k: nat :| OccursAt(body, gem, k);
      var p, s := body[..k], body[k + |gem|..];
      assert body == p + gem + s;
      assert entry == body + "/lib";
      assert IsMatch(entry, gem, p, s);
    }
    if exists p, s :: IsMatch(entry, gem, p, s) {
      var p, s :| IsMatch(entry, gem, p, s);
      var body := p + gem + s;
      assert entry == body + "/lib";
      assert entry[..|entry| - 4] == body;
      assert entry[|entry| - 4..] == "/lib";
      assert body[|p|..|p| + |gem|] == gem;
      assert body[|p| + |gem|..] == s;
      assert OccursAt(body, gem, |p|);
      MatchesFromComplete(body, gem, 0, |p|);
    }
  }

  /** `load_path.grep(regexp)`: the matching entries. */
  function Grep(loadPath: seq<string>, gem: string): (r: seq<string>)
    ensures forall x :: x in r ==> x in loadPath && EntryMatches(x, gem)
    ensures forall x :: x in loadPath && EntryMatches(x, gem) ==> x in r
  {
    if loadPath == [] then []
    else if EntryMatches(loadPath[0], gem) then [loadPath[0]] + Grep(loadPath[1..], gem)
    else Grep(loadPath[1..], gem)
  }

  /** `k` is the position of the first load-path entry that matches. */
  ghost predicate IsFirstMatch(loadPath: seq<string>, gem: string, k: int) {
    0 <= k < |loadPath| && EntryMatches(loadPath[k], gem) &&
    forall j :: 0 <= j < k ==> !EntryMatches(loadPath[j], gem)
  }

  /** `.first` of the grep is the earliest matching entry in load-path order. */
  lemma {:induction false} GrepFirstIsFirstMatch(loadPath: seq<string>, gem: string)
    requires Grep(loadPath, gem) != []
    ensures exists k :: IsFirstMatch(loadPath, gem, k) && loadPath[k] == Grep(loadPath, gem)[0]
  {
    if EntryMatches(loadPath[0], gem) {
      assert IsFirstMatch(loadPath, gem, 0);
    } else {
      var rest := loadPath[1..];
      GrepFirstIsFirstMatch(rest, gem);
      var k :| IsFirstMatch(rest, gem, k) && rest[k] == Grep(rest, gem)[0];
      forall j | 0 <= j < k + 1
        ensures !EntryMatches(loadPath[j], gem)
      {
        if j > 0 { assert loadPath[j] == rest[j - 1]; }
      }
      assert IsFirstMatch(loadPath, gem, k + 1);
    }
  }

  /**
   `AppTask#component_root_dir(gem)`: the first matching entry without its
   trailing `/lib`, or None where Ruby would call `[0..-5]` on `nil` and raise.
   */
  function AppRootDir(loadPath: seq<string>, gem: string): (r: Option<string>)
    ensures r.None? <==> forall e :: e in loadPath ==> !EntryMatches(e, gem)
    ensures r.Some? ==> exists k :: IsFirstMatch(loadPath, gem, k) && r.value + "/lib" == loadPath[k]
  {
    var found := Grep(loadPath, gem);
    if found == [] then None
    else
      var entry := found[0];
      GrepFirstIsFirstMatch(loadPath, gem);
      assert entry[..|entry| - 4] + "/lib" == entry;
      Some(entry[..|entry| - 4])
  }

  /** AppTask fails exactly when no load-path entry has the shape `p + gem + s + "/lib"`. */
  lemma AppRootDirFailsIff(loadPath: seq<string>, gem: string)
    ensures AppRootDir(loadPath, gem).None? <==>
            forall e, p, s :: e in loadPath ==> !IsMatch(e, gem, p, s)
  {
    forall e | e in loadPath {
      EntryMatchesIff(e, gem);
    }
  }

  /** When the first entry matches as `p + gem + s + "/lib"`, the root is `p + gem + s`, whatever follows. */
  lemma {:induction false} FirstEntryRoot(loadPath: seq<string>, gem: string, p: string, s: string)
    requires |loadPath| > 0 && IsMatch(loadPath[0], gem, p, s)
    ensures AppRootDir(loadPath, gem) == Some(p + gem + s)
  {
    var entry := loadPath[0];
    EntryMatchesIff(entry, gem);
    assert Grep(loadPath, gem)[0] == entry;
    assert entry == (p + gem + s) + "/lib";
    assert entry[..|entry| - 4] == p + gem + s;
  }

  /** The example of an installed gem: `/gems/activerecord-7.0.0/lib` gives `/gems/activerecord-7.0.0`. */
  lemma InstalledGemRoot()
    ensures AppRootDir(["/gems/" + "activerecord" + "-7.0.0" + "/lib"], "activerecord") == Some("/gems/" + "activerecord" + "-7.0.0")
  {
    assert SuffixChars("-7.0.0");
    FirstEntryRoot(["/gems/" + "activerecord" + "-7.0.0" + "/lib"], "activerecord", "/gems/", "-7.0.0");
  }

  /**
   Because `-` and letters belong to `[\w.-]`, a sibling gem whose name starts
   with the component's name also matches: `activemodel-serializers-xml-1.0.2/lib`
   satisfies the pattern for `activemodel`, and if it comes first on the load
   path its root is the one chosen, whatever follows it.
   */
  lemma SiblingGemShadows(rest: seq<string>)
    ensures AppRootDir(["/gems/" + "activemodel" + "-serializers-xml-1.0.2" + "/lib"] + rest, "activemodel")
            == Some("/gems/" + "activemodel" + "-serializers-xml-1.0.2")
  {
    var loadPath := ["/gems/" + "activemodel" + "-serializers-xml-1.0.2" + "/lib"] + rest;
    assert SuffixChars("-serializers-xml-1.0.2");
    assert IsMatch(loadPath[0], "activemodel", "/gems/", "-serializers-xml-1.0.2");
    FirstEntryRoot(loadPath, "activemodel", "/gems/", "-serializers-xml-1.0.2");
  }
}
