/** The repository rules: the abstract `RepositoryRule` (a match pattern and
    an ignore list) and its two concrete kinds, `PelicanEggsRule` (the type
    is the repository's short name) and `DefaultRule` (the type is found by
    walking the path from the leaf upward). */
module Rules {
  import opened Wrappers
  import opened Text
  import opened Paths

  /** A rule's `pattern`: a literal author compared with `===`, or the only
      regular expression the repository uses, `.*` (unanchored), which accepts every
      string. */
  datatype Pattern = Exact(author: string) | MatchAll

  /** Which `getType` the rule's class implements. */
  datatype Typing = ByRepoName | ByPathWalk

  datatype Rule = Rule(pattern: Pattern, ignorePatterns: seq<string>, typing: Typing)

  const ArchivedGlob: string := "**/Archived/**/*"
  const PackageJsonGlob: string := "**/package.json"
  const PelicanAuthor: string := "pelican-eggs"

  /** The `RepositoryRule` constructor: `ignorePatterns` defaults to `[]`
      when the subclass passes `undefined`. */
  function NewRule(pattern: Pattern, ignorePatterns: Option<seq<string>>, typing: Typing): (r: Rule)
    ensures r.pattern == pattern && r.typing == typing
    ensures ignorePatterns.Some? ==> r.ignorePatterns == ignorePatterns.value
    ensures ignorePatterns.None? ==> r.ignorePatterns == []
  {
    Rule(pattern, ignorePatterns.GetOr([]), typing)
  }

  /** A rule built without an ignore list ignores nothing, a given list is
      what `getIgnorePatterns` answers, and the rule matches as its pattern
      says. */
  lemma ConstructedRule(pattern: Pattern, ignorePatterns: seq<string>, typing: Typing, authorRepo: string)
    ensures NewRule(pattern, None, typing) == NewRule(pattern, Some([]), typing)
    ensures GetIgnorePatterns(NewRule(pattern, Some(ignorePatterns), typing)) == ignorePatterns
    ensures Matches(NewRule(pattern, None, typing), authorRepo) <==>
            pattern.MatchAll? || pattern == Exact(authorRepo)
  {
  }

  /** `matches(authorRepo)`. */
  predicate Matches(rule: Rule, authorRepo: string) {
    match rule.pattern
    case Exact(a) => authorRepo == a
    case MatchAll => true
  }

  /** `getIgnorePatterns()`. */
  function GetIgnorePatterns(rule: Rule): seq<string> {
    rule.ignorePatterns
  }

  /** `getType(path, repoName)`; `None` is JavaScript's `undefined`, which
      `PelicanEggsRule` returns when the repository string has no '/'. */
  function GetType(rule: Rule, path: Path, repoName: Option<string>): Option<string> {
    match rule.typing
    case ByRepoName => repoName
    case ByPathWalk => Some(DefaultRuleWalk(path))
  }

  /** `new PelicanEggsRule()`. */
  function PelicanEggsRule(): Rule {
    NewRule(Exact(PelicanAuthor), Some([ArchivedGlob, PackageJsonGlob]), ByRepoName)
  }

  /** `new DefaultRule()`. */
  function DefaultRule(): Rule {
    NewRule(MatchAll, Some([ArchivedGlob, PackageJsonGlob]), ByPathWalk)
  }

  /** `DefaultRule`'s noise test. The language-folder comparison is made on
      the WHOLE current path, so it only fires when that path is the single
      component `pt-br` or `en` (any case). */
  predicate DefaultNoise(p: Path) {
    p != [] && (Basename(p) == "eggs" || EndsWith(Basename(p), ".json")
                || (|p| == 1 && AsciiLower(p[0]) in ["pt-br", "en"]))
  }

  /** `DefaultRule.getTypeRecursive`. */
  function DefaultRuleWalk(p: Path): string {
    StripNoise(p, DefaultNoise)
  }

  /** A string pattern is an exact, case-sensitive comparison. */
  lemma ExactMatchesOnlyItself(a: string, ignore: seq<string>, t: Typing, x: string)
    ensures Matches(Rule(Exact(a), ignore, t), x) <==> x == a
  {
  }

  lemma PelicanRuleIsCaseSensitive()
    ensures Matches(PelicanEggsRule(), "pelican-eggs")
    ensures !Matches(PelicanEggsRule(), "Pelican-Eggs")
  {
  }

  /** `DefaultRule` accepts every author; `PelicanEggsRule` only `pelican-eggs`;
      both ignore the Archived tree and package.json. */
  lemma ConcreteRules(a: string)
    ensures Matches(DefaultRule(), a)
    ensures Matches(PelicanEggsRule(), a) <==> a == "pelican-eggs"
    ensures GetIgnorePatterns(DefaultRule()) == ["**/Archived/**/*", "**/package.json"]
    ensures GetIgnorePatterns(PelicanEggsRule()) == ["**/Archived/**/*", "**/package.json"]
  {
  }

  /** `PelicanEggsRule.getType` returns the repository name whatever the path,
      so two files of one repository always share a type. */
  lemma {:induction false} PelicanTypeIgnoresPath(p: Path, q: Path, repoName: Option<string>)
    ensures GetType(PelicanEggsRule(), p, repoName) == repoName
    ensures GetType(PelicanEggsRule(), p, repoName) == GetType(PelicanEggsRule(), q, repoName)
  {
  }

  /** `DefaultRule.getType` does not look at the repository name. */
  lemma DefaultTypeIgnoresRepoName(p: Path, r1: Option<string>, r2: Option<string>)
    ensures GetType(DefaultRule(), p, r1) == GetType(DefaultRule(), p, r2) == Some(DefaultRuleWalk(p))
  {
  }

  /** What `DefaultRule` returns is never `eggs` and never a `.json` name: it is
      "" (empty path), "." (every component stripped) or a kept component. */
  lemma DefaultWalkNeverNoise(p: Path)
    ensures var r := DefaultRuleWalk(p);
      && r != "eggs" && !EndsWith(r, ".json")
      && (r == "" <==> p == [])
      && (r == "." || r == "" || r in p)
  {
    StripNoiseKept(p, DefaultNoise);
    var r := DefaultRuleWalk(p);
    if r != "" && r != "." {
      var k :| 0 <= k < |p| && r == p[k] && !NoiseAt(p, DefaultNoise, k);
      assert Basename(p[..k + 1]) == p[k];
    }
  }

  /** `eggs/pt-br/minecraft/egg.json` resolves to `minecraft`. */
  lemma DefaultWalkLocalisedEgg()
    ensures DefaultRuleWalk(["eggs", "pt-br", "minecraft", "egg.json"]) == "minecraft"
  {
    var p: Path := ["eggs", "pt-br", "minecraft", "egg.json"];
    assert NoiseAt(p, DefaultNoise, 3) by { assert p[..4] == p; }
    assert !NoiseAt(p, DefaultNoise, 2) by { assert p[..3] == ["eggs", "pt-br", "minecraft"]; }
    StripNoiseInnermost(p, DefaultNoise, 2);
  }

  /** The whole-path comparison: in `x/en/y.json` the `en` folder is not the
      whole path, so it is kept as the type. */
  lemma DefaultWalkKeepsInnerLanguageFolder()
    ensures DefaultRuleWalk(["x", "en", "y.json"]) == "en"
  {
    var p: Path := ["x", "en", "y.json"];
    assert NoiseAt(p, DefaultNoise, 2) by { assert p[..3] == p; }
    assert !NoiseAt(p, DefaultNoise, 1) by { assert p[..2] == ["x", "en"]; }
    StripNoiseInnermost(p, DefaultNoise, 1);
  }

  /** `eggs/x.json`: every component is noise, the walk ends at ".". */
  lemma DefaultWalkExhausted()
    ensures DefaultRuleWalk(["eggs", "x.json"]) == "."
  {
    var p: Path := ["eggs", "x.json"];
    assert NoiseAt(p, DefaultNoise, 1) by { assert p[..2] == p; }
    assert NoiseAt(p, DefaultNoise, 0) by { assert p[..1] == ["eggs"]; }
    StripNoiseAllNoise(p, DefaultNoise);
  }
}
