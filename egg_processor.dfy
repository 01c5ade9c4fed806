/** `EggProcessor`, in its two generations: every JSON file of a repository
    that passes the egg gate becomes an egg record, and the records are
    sorted by name. The glob, the file reads and the detectors are inputs:
    the files come as `EggFile`s in glob order, the language step is the
    parameter `language` (the newer generation uses `ServiceLanguage`,
    the older one `CldOrEnglish`), and the byte label is the parameter
    `format` (the older generation uses `FunctionsFormatter`). */
module EggProcessing {
  import opened Wrappers
  import opened Text
  import opened Paths
  import opened Rules
  import opened RuleManagement
  import Formatter
  import opened Eggs
  import opened LanguageDetection
  import opened Sorting
  import opened Sequences

  datatype ProcessorConfig = ProcessorConfig(repository: string, branch: string, path: string)

  /** The processor's fields, all fixed by the constructor. */
  datatype EggProcessor = EggProcessor(
    authorRepo: string,
    repoName: Option<string>,
    branch: string,
    path: string,
    repository: string)

  function NewEggProcessor(config: ProcessorConfig): EggProcessor {
    EggProcessor(AuthorOf(config.repository), RepoNameOf(config.repository),
                 config.branch, config.path, config.repository)
  }

  /** For a repository `author/name` the processor's author and repository
      name are the two halves; `getInfo` reports them with the branch. */
  lemma ProcessorSplitsRepository(author: string, name: string, branch: string, path: string)
    requires '/' !in author && '/' !in name
    ensures var p := NewEggProcessor(ProcessorConfig(author + "/" + name, branch, path));
      p.authorRepo == author && p.repoName == Some(name) && p.branch == branch
  {
    RepositoryRoundTrip(author, name);
  }

  /** `isValidEgg`: more than 735 bytes, and a truthy name and author. */
  predicate IsValidEgg(config: EggConfig, size: nat) {
    size > MinEggSize && Truthy(config.name) && Truthy(config.author)
  }

  /** The size bound is strict: 735 bytes are rejected, 736 accepted. */
  lemma ValidEggSizeBoundary(config: EggConfig)
    requires Truthy(config.name) && Truthy(config.author)
    ensures !IsValidEgg(config, 735)
    ensures IsValidEgg(config, 736)
  {
  }

  /** `Formatter.formatBytes(size)` of `src/functions/Formatter.ts`, the
      byte label of the older generation; two decimals never throw. The
      newer one imports its own `./Formatter`, so its label is a parameter
      as well. */
  const FunctionsFormatter: nat -> Formatter.ByteLabel := (n: nat) => Formatter.FormatBytes(n, 2).value

  /** `createEgg`: the relative path is the glob path without its first
      component; the type comes from the rule list, and a list without
      rules makes the call throw. */
  function CreateEgg(p: EggProcessor, rules: seq<Rule>, config: EggConfig, path: Path, size: nat,
                     language: Option<string>, format: nat -> Formatter.ByteLabel): (r: Result<Egg>)
    ensures r.Success? <==> rules != []
    ensures r.Success? ==> (&& r.value.name == config.name && r.value.author == config.author
                           && r.value.description == config.description
                           && r.value.exportedAt == config.exportedAt
                           && r.value.language == language && r.value.size == format(size))
  {
    var pathEgg := StripFirstSegment(path);
    var link := BuildRawGithubUrl(p.repository, p.branch, ToString(pathEgg));
    match EggType(rules, pathEgg, p.authorRepo, p.repoName)
    case Failure(e) => Failure(e)
    case Success(eggType) =>
      Success(Egg(config.name, config.description, language, format(size),
                  eggType, config.author, link, config.exportedAt))
  }

  /** The link of an egg points at its file on the processor's branch, and
      its type is the one the rule chosen for the author gives the relative
      path. */
  lemma CreateEggLinkAndType(p: EggProcessor, rules: seq<Rule>, config: EggConfig, path: Path, size: nat,
                             language: Option<string>, format: nat -> Formatter.ByteLabel)
    requires rules != []
    ensures var e := CreateEgg(p, rules, config, path, size, language, format).value;
      && e.link == BuildRawGithubUrl(p.repository, p.branch,
                                     ReplaceFirst(ToString(path), SplitOn(ToString(path), '/')[0] + "/", ""))
      && e.eggType == GetType(SelectRule(rules, p.authorRepo).value, StripFirstSegment(path), p.repoName)
  {
    StripFirstSegmentIsReplace(path);
  }

  /** `processFile`: `null` for a file that cannot be read or parsed, that
      fails the gate, or whose egg cannot be built. */
  function ProcessFile(p: EggProcessor, rules: seq<Rule>, language: EggConfig -> Option<string>,
                       format: nat -> Formatter.ByteLabel, f: EggFile): (r: Option<Egg>)
    ensures r.Some? <==> f.contents.Parsed? && IsValidEgg(f.contents.config, f.contents.size) && rules != []
    ensures r.Some? ==> Truthy(r.value.name) && Truthy(r.value.author)
  {
    match f.contents
    case Unreadable => None
    case Parsed(size, config) =>
      if !IsValidEgg(config, size) then None
      else
        match CreateEgg(p, rules, config, f.path, size, language(config), format)
        case Failure(_) => None
        case Success(egg) => Some(egg)
  }

  /** `processFile` as a function of the file alone. */
  function Step(p: EggProcessor, rules: seq<Rule>, language: EggConfig -> Option<string>,
                format: nat -> Formatter.ByteLabel): EggFile -> Option<Egg> {
    (f: EggFile) => ProcessFile(p, rules, language, format, f)
  }

  /** The eggs of the accepted files, in glob order. */
  function KeptEggs(p: EggProcessor, rules: seq<Rule>, language: EggConfig -> Option<string>,
                    format: nat -> Formatter.ByteLabel, files: seq<EggFile>): seq<Egg> {
    FilterMap(Step(p, rules, language, format), files)
  }

  /** `process`: the loop over the files, then `sort` by `localeCompare` of
      the names (the parameter `le`). */
  method Process(p: EggProcessor, rules: seq<Rule>, language: EggConfig -> Option<string>,
                 format: nat -> Formatter.ByteLabel,
                 le: (string, string) -> bool, files: seq<EggFile>) returns (eggs: seq<Egg>)
    ensures eggs == SortBy(NameKey, le, KeptEggs(p, rules, language, format, files))
  {
    eggs := [];
    var i := 0;
    while i < |files|
      invariant 0 <= i <= |files|
      invariant eggs == FilterMap(Step(p, rules, language, format), files[..i])
    {
      assert files[..i + 1][..i] == files[..i];
      var egg := ProcessFile(p, rules, language, format, files[i]);
      if egg.Some? {
        eggs := eggs + [egg.value];
      }
      i := i + 1;
    }
    assert files[..i] == files;
    eggs := SortBy(NameKey, le, eggs);
  }

  /** The result of `process` is sorted by name, holds each accepted egg as
      often as it was produced and exactly the eggs of accepted files, never
      more eggs than files, and only eggs with a truthy name and author. */
  lemma ProcessSortedPermutation(p: EggProcessor, rules: seq<Rule>, language: EggConfig -> Option<string>,
                                 format: nat -> Formatter.ByteLabel, le: (string, string) -> bool, files: seq<EggFile>)
    requires TotalPreorder(le)
    ensures var kept := KeptEggs(p, rules, language, format, files);
      var r := SortBy(NameKey, le, kept);
      && SortedBy(NameKey, le, r)
      && multiset(r) == multiset(kept)
      && |r| <= |files|
      && (forall e :: e in r <==> exists i :: 0 <= i < |files| && ProcessFile(p, rules, language, format, files[i]) == Some(e))
      && (forall e :: e in r ==> Truthy(e.name) && Truthy(e.author))
  {
    var kept := KeptEggs(p, rules, language, format, files);
    SortByIsSorted(NameKey, le, kept);
    FilterMapExactly(Step(p, rules, language, format), files);
    var r := SortBy(NameKey, le, kept);
    forall e ensures e in r <==> e in kept {
      assert e in r <==> e in multiset(r);
      assert e in kept <==> e in multiset(kept);
    }
  }

  /** A file that cannot be read, or fails the gate, is skipped without
      affecting the others. */
  lemma SkippedFileChangesNothing(p: EggProcessor, rules: seq<Rule>, language: EggConfig -> Option<string>,
                                  format: nat -> Formatter.ByteLabel, files: seq<EggFile>, f: EggFile)
    requires !f.contents.Parsed? || !IsValidEgg(f.contents.config, f.contents.size)
    ensures KeptEggs(p, rules, language, format, files + [f]) == KeptEggs(p, rules, language, format, files)
  {
    assert (files + [f])[..|files|] == files;
  }

  /** The services the newer generation consults: the detector and its
      request, the answers of the two `isAvailable` probes (the one of
      `detectLanguageFromEgg`, then the one of `detectLanguage`), and
      `cld.detect` (`None` when it rejects). */
  datatype Services = Services(
    detector: LanguageDetector,
    api: string -> Option<string>,
    eggProbe: bool,
    descriptionProbe: bool,
    cld: string -> Option<seq<CldLanguage>>)

  /** `detectLanguage(description)` of the newer generation: `null` for a
      missing or short description and when cld fails; the detector when it
      is available, otherwise cld's strongest language. */
  function DetectLanguage(s: Services, description: JsonField): (r: Option<string>)
    ensures !Truthy(description) || TooShort(description.text) ==> r.None?
    ensures Truthy(description) && !TooShort(description.text) && s.descriptionProbe
            ==> r == Some(Detect(s.detector, description.text, s.api))
    ensures Truthy(description) && !TooShort(description.text) && !s.descriptionProbe
            ==> r == (if s.cld(description.text).Some? then MaxByPercent(s.cld(description.text).value) else None)
  {
    if !Truthy(description) || TooShort(description.text) then None
    else if s.descriptionProbe then Some(Detect(s.detector, description.text, s.api))
    else
      match s.cld(description.text)
      case None => None
      case Some(langs) => MaxByPercent(langs)
  }

  /** `detectLanguageFromEgg`: the detector on the egg's texts when it is
      available, otherwise `detectLanguage` on the description. */
  function ServiceLanguage(s: Services): EggConfig -> Option<string> {
    (config: EggConfig) =>
      if s.eggProbe then Some(DetectFromMultiple(s.detector, EggTexts(config), s.api))
      else DetectLanguage(s, config.description)
  }

  /** Where a language from `detectLanguage` comes from: the detector's
      answer for the description or its fallback when the detector is
      available, otherwise the first of cld's languages with the highest
      percentage; `null` for a missing or short description and when cld
      finds nothing. */
  lemma DetectLanguageOrigin(s: Services, description: JsonField)
    ensures DetectLanguage(s, description).None? <==>
      || !Truthy(description) || TooShort(description.text)
      || (!s.descriptionProbe && (s.cld(description.text).None? || s.cld(description.text).value == []))
    ensures DetectLanguage(s, description).Some? && s.descriptionProbe ==>
      || DetectLanguage(s, description).value == s.detector.fallbackLanguage
      || s.api(description.text) == DetectLanguage(s, description)
    ensures DetectLanguage(s, description).Some? && !s.descriptionProbe ==>
      exists i :: IsFirstMax(s.cld(description.text).value, i)
                  && s.cld(description.text).value[i].code == DetectLanguage(s, description).value
  {
  }

  /** The newer generation gives `null` only when the detector is down and
      the description is missing, short, or beyond cld; a reachable
      detector always gives a language. */
  lemma ServiceLanguageNull(s: Services, config: EggConfig)
    ensures s.eggProbe ==> ServiceLanguage(s)(config).Some?
    ensures ServiceLanguage(s)(config).None? <==>
      !s.eggProbe && (!Truthy(config.description) || TooShort(config.description.text)
                      || (!s.descriptionProbe && (s.cld(config.description.text).None?
                                                  || s.cld(config.description.text).value == [])))
  {
  }

  /** `detectLanguage` of the older generation: cld's strongest language,
      or `en` when cld rejects the description (a missing description
      included) or finds nothing. */
  function CldOrEnglish(cld: string -> Option<seq<CldLanguage>>): EggConfig -> Option<string> {
    (config: EggConfig) =>
      if !config.description.Text? then Some("en")
      else
        match cld(config.description.text)
        case None => Some("en")
        case Some(langs) => Some(MaxByPercent(langs).GetOr("en"))
  }

  /** The older generation never gives `null`. */
  lemma CldOrEnglishNeverNull(cld: string -> Option<seq<CldLanguage>>, config: EggConfig)
    ensures CldOrEnglish(cld)(config).Some?
    ensures config.description.Text? && cld(config.description.text).Some? && cld(config.description.text).value != []
            ==> CldOrEnglish(cld)(config) == MaxByPercent(cld(config.description.text).value)
  {
  }
}
