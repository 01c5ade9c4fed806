/** `getEggs`, the oldest extraction step: the same walk over the JSON files
    of a repository, with its gate, its type walk and its ignore list written
    inline, and no sorting. `formatBytes` of `./format` is the parameter
    `format`. */
module GetEggs {
  import opened Wrappers
  import opened Text
  import opened Paths
  import opened Rules
  import opened RuleManagement
  import Formatter
  import opened Eggs
  import opened Sequences
  import EggProcessing

  /** The ignore list passed to the glob. */
  const IgnoreList: seq<string> := [ArchivedGlob, PackageJsonGlob]

  /** The hard-coded list is the one `DefaultRule` and `PelicanEggsRule`
      carry. */
  lemma IgnoreListIsRulesList(authorRepo: string)
    ensures IgnorePatterns(DefaultRules(), authorRepo) == Success(IgnoreList)
  {
    DefaultListResolution(authorRepo);
  }

  /** The gate: more than 735 bytes, and a name and an author that are not
      `undefined`; `null` and `""` pass. */
  predicate Accepts(config: EggConfig, size: nat) {
    size > MinEggSize && Defined(config.name) && Defined(config.author)
  }

  /** The strict `=== undefined` test lets an empty name through where the
      later processors' truthiness test does not. */
  lemma EmptyNamePasses(config: EggConfig, size: nat)
    requires size > MinEggSize && config.name == Text("") && Defined(config.author)
    ensures Accepts(config, size)
    ensures !EggProcessing.IsValidEgg(config, size)
  {
  }

  /** A `null` name passes too, and reaches `Merge.write`, whose sort may
      then throw on it (`Merging.SortEngine`); the processors drop it. */
  lemma NullNamePasses(config: EggConfig, size: nat)
    requires size > MinEggSize && config.name == Null && Defined(config.author)
    ensures Accepts(config, size)
    ensures !EggProcessing.IsValidEgg(config, size)
  {
  }

  /** The later gate is the stricter one: every egg it accepts, this one
      accepts too. */
  lemma ProcessorGateIsStricter(config: EggConfig, size: nat)
    requires EggProcessing.IsValidEgg(config, size)
    ensures Accepts(config, size)
  {
  }

  /** The inner `getType`: the repository name for `pelican-eggs`, otherwise
      the walk that drops `eggs`, `.json` and a lone language folder. */
  function EggType(authorRepo: string, repoName: Option<string>, pathEgg: Path): Option<string> {
    if authorRepo == PelicanAuthor then repoName else Some(DefaultRuleWalk(pathEgg))
  }

  /** The inline walk is the one the default rule list later performs. */
  lemma EggTypeIsDefaultRulesType(authorRepo: string, repoName: Option<string>, pathEgg: Path)
    ensures RuleManagement.EggType(DefaultRules(), pathEgg, authorRepo, repoName)
            == Success(EggType(authorRepo, repoName, pathEgg))
  {
    DefaultListResolution(authorRepo);
  }

  /** One file: skipped when unreadable or rejected by the gate, otherwise
      the record with cld's language or `en`. */
  function EggOf(repository: string, branch: string, cld: string -> Option<seq<CldLanguage>>,
                 format: nat -> Formatter.ByteLabel, f: EggFile): (r: Option<Egg>)
    ensures r.Some? <==> f.contents.Parsed? && Accepts(f.contents.config, f.contents.size)
    ensures r.Some? ==> r.value.language.Some? && r.value.name == f.contents.config.name
    ensures r.Some? ==> r.value.link == BuildRawGithubUrl(repository, branch, ToString(StripFirstSegment(f.path)))
  {
    match f.contents
    case Unreadable => None
    case Parsed(size, config) =>
      if !Accepts(config, size) then None
      else
        var pathEgg := StripFirstSegment(f.path);
        EggProcessing.CldOrEnglishNeverNull(cld, config);
        Some(Egg(config.name, config.description, EggProcessing.CldOrEnglish(cld)(config), format(size),
                 EggType(AuthorOf(repository), RepoNameOf(repository), pathEgg), config.author,
                 BuildRawGithubUrl(repository, branch, ToString(pathEgg)), config.exportedAt))
  }

  function Step(repository: string, branch: string, cld: string -> Option<seq<CldLanguage>>,
                format: nat -> Formatter.ByteLabel): EggFile -> Option<Egg> {
    (f: EggFile) => EggOf(repository, branch, cld, format, f)
  }

  /** `getEggs(path, { branch, repository })` over the files the glob
      returned, in glob order. */
  method GetEggs(repository: string, branch: string, cld: string -> Option<seq<CldLanguage>>,
                 format: nat -> Formatter.ByteLabel, files: seq<EggFile>) returns (eggs: seq<Egg>)
    ensures eggs == FilterMap(Step(repository, branch, cld, format), files)
  {
    eggs := [];
    for i := 0 to |files|
      invariant eggs == FilterMap(Step(repository, branch, cld, format), files[..i])
    {
      assert files[..i + 1][..i] == files[..i];
      var egg := EggOf(repository, branch, cld, format, files[i]);
      if egg.Some? {
        eggs := eggs + [egg.value];
      }
    }
    assert files[..|files|] == files;
  }

  /** The output is unsorted: the eggs of a first batch of files come before
      those of a second, each accepted file gives its egg, and every egg has
      a language and a name and an author that are not `undefined`. */
  lemma GetEggsInGlobOrder(repository: string, branch: string, cld: string -> Option<seq<CldLanguage>>,
                           format: nat -> Formatter.ByteLabel, files: seq<EggFile>, more: seq<EggFile>)
    ensures var step := Step(repository, branch, cld, format);
      && FilterMap(step, files + more) == FilterMap(step, files) + FilterMap(step, more)
      && |FilterMap(step, files)| <= |files|
      && (forall i :: 0 <= i < |files| && files[i].contents.Parsed?
                      && Accepts(files[i].contents.config, files[i].contents.size)
                      ==> EggOf(repository, branch, cld, format, files[i]).value in FilterMap(step, files))
      && (forall e: Egg :: e in FilterMap(step, files) ==> e.language.Some? && Defined(e.name) && Defined(e.author))
  {
    var step := Step(repository, branch, cld, format);
    FilterMapAppend(step, files, more);
    FilterMapExactly(step, files);
    forall e: Egg | e in FilterMap(step, files) ensures e.language.Some? && Defined(e.name) && Defined(e.author) {
      var i :| 0 <= i < |files| && step(files[i]) == Some(e);
    }
  }
}
