/** The two orchestrators: `EggTrackerApp` and the older script `start.ts`.
    Both walk a list of repositories, skip a repository whose last push is
    the one recorded in `api/links.json`, extract its eggs, merge them into
    the author's store and files, and record a link row per refreshed
    repository; at the end the rows are folded into `api/links.json`.

    The outside world is an input. For each repository, `World` gives the
    GitHub API's `pushed_at` (`None` when the request fails), whether its
    working copy is there (an existing directory, or a clone that
    succeeded), and the JSON files the glob finds in it. The files under
    `api/` are the object `ApiFiles`; the static `Merge.metadata` is
    `Merging.Metadata`. */
module Tracker {
  import opened Wrappers
  import opened Text
  import opened Eggs
  import Formatter
  import opened Sorting
  import opened Sequences
  import opened RuleManagement
  import opened EggProcessing
  import opened Merging
  import opened Links
  import GetEggs

  /** An entry of a repository list; a missing branch is `main`. */
  datatype Repo = Repo(repository: string, branch: Option<string>)

  function BranchOf(repo: Repo): string {
    repo.branch.GetOr("main")
  }

  /** `repository.split('/')[1]`, which a template literal and an object
      key both render as `undefined` when there is no slash. */
  function RepoKey(repository: string): string {
    RepoNameOf(repository).GetOr("undefined")
  }

  /** The list the application walks, in its order. */
  const Repositories: seq<Repo> := [
    Repo("Ashu11-A/Ashu_eggs", None),
    Repo("DanBot-Hosting/pterodactyl-eggs", None),
    Repo("Draakoor/codptero", None),
    Repo("drylian/Eggs", None),
    Repo("GeyserMC/pterodactyl-stuff", Some("master")),
    Repo("gOOvER/own-pterodactyl-eggs", None),
    Repo("kry008/pterodactyl-io-ARM-eggs", None),
    Repo("pelican-eggs/chatbots", None),
    Repo("pelican-eggs/database", None),
    Repo("pelican-eggs/games-standalone", None),
    Repo("pelican-eggs/games-steamcmd", None),
    Repo("pelican-eggs/generic", None),
    Repo("pelican-eggs/minecraft", None),
    Repo("pelican-eggs/monitoring", None),
    Repo("pelican-eggs/software", None),
    Repo("pelican-eggs/voice", None),
    Repo("QuintenQVD0/Q_eggs", None),
    Repo("Sigma-Production/ptero-eggs", None),
    Repo("ysdragon/Pterodactyl-VPS-Egg", None)
  ]

  /** The list the script walks, in its order. */
  const ScriptRepositories: seq<Repo> := [
    Repo("Ashu11-A/Ashu_eggs", None),
    Repo("drylian/Eggs", None),
    Repo("QuintenQVD0/Q_eggs", None),
    Repo("kry008/pterodactyl-io-ARM-eggs", None),
    Repo("Sigma-Production/ptero-eggs", None),
    Repo("GeyserMC/pterodactyl-stuff", Some("master")),
    Repo("DanBot-Hosting/pterodactyl-eggs", None),
    Repo("ysdragon/Pterodactyl-VPS-Egg", None),
    Repo("Draakoor/codptero", None),
    Repo("gOOvER/own-pterodactyl-eggs", None),
    Repo("pelican-eggs/games-steamcmd", None),
    Repo("pelican-eggs/minecraft", None),
    Repo("pelican-eggs/software", None),
    Repo("pelican-eggs/generic", None),
    Repo("pelican-eggs/chatbots", None),
    Repo("pelican-eggs/games-standalone", None),
    Repo("pelican-eggs/monitoring", None),
    Repo("pelican-eggs/database", None),
    Repo("pelican-eggs/voice", None)
  ]

  /** What the outside world answers for one repository. */
  datatype World = World(pushedAt: Option<string>, available: bool, files: seq<EggFile>)

  /** The inputs of a run: the world, cld, `localeCompare`, whether the
      sort in `Merge.write` throws on a list (`Merging.SortEngine`), and
      the byte formatter of `./format`. */
  datatype Env = Env(
    world: string -> World,
    cld: string -> Option<seq<CldLanguage>>,
    le: (string, string) -> bool,
    sortThrows: seq<Egg> -> bool,
    format: nat -> Formatter.ByteLabel)

  /** Everything a run changes: the static store, the cache files and the
      sorted lists under `api/`, and the link rows of the run. */
  datatype RunState = RunState(
    byAuthor: map<string, Store>,
    caches: map<string, Store>,
    lists: map<string, seq<Egg>>,
    links: seq<LinkData>)

  function Lookup(m: map<string, Store>, author: string): Option<Store> {
    if author in m then Some(m[author]) else None
  }

  /** Every repository of `file` is also in `memory`. */
  ghost predicate Covers(memory: Store, file: Store) {
    forall k :: Get(file, k).Some? ==> Get(memory, k).Some?
  }

  /** The state `Merge` keeps consistent: for every author in memory, the
      object holds every repository of the author's cache file, and the
      cache file holds the object and the list file its eggs, flattened
      and sorted, unless sorting that object throws, in which case the
      author's last `write` failed and left older files. */
  ghost predicate Mirrored(env: Env, s: RunState) {
    forall a :: a in s.byAuthor ==>
      && (a in s.caches ==> Covers(s.byAuthor[a], s.caches[a]))
      && (|| env.sortThrows(Flatten(s.byAuthor[a]))
      || (&& a in s.caches && s.caches[a] == s.byAuthor[a]
          && a in s.lists && s.lists[a] == SortBy(NameKey, env.le, Flatten(s.byAuthor[a]))))
  }

  /** The author's object after `read()`. */
  function ReadStore(s: RunState, author: string, repoName: string, eggs: seq<Egg>): Store {
    Overlay(Lookup(s.caches, author), Lookup(s.byAuthor, author), repoName, eggs)
  }

  /** Whether the `write()` after that `read()` throws. */
  predicate WriteThrows(env: Env, s: RunState, author: string, repoName: string, eggs: seq<Egg>) {
    env.sortThrows(Flatten(ReadStore(s, author, repoName, eggs)))
  }

  /** `new Merge({ author, data, repoName }).read()` then `write()`, with
      the written files; a `write()` that throws has written none. */
  function MergeStep(env: Env, s: RunState, author: string, repoName: string, eggs: seq<Egg>): RunState {
    var store := ReadStore(s, author, repoName, eggs);
    if env.sortThrows(Flatten(store)) then s.(byAuthor := s.byAuthor[author := store])
    else
      s.(byAuthor := s.byAuthor[author := store],
         caches := s.caches[author := store],
         lists := s.lists[author := SortBy(NameKey, env.le, Flatten(store))])
  }

  /** A merge keeps the files in step with memory and touches one author.
      That author's object gets the repository's eggs; another repository
      keeps what memory had, and only an author not yet in memory takes
      its repositories from the cache file. When the write succeeds, the
      author's files are its object and a list counting the eggs of all
      its repositories; when it throws, no file changes. */
  lemma MergeStepState(env: Env, s: RunState, author: string, repoName: string, eggs: seq<Egg>)
    requires Mirrored(env, s)
    ensures var r := MergeStep(env, s, author, repoName, eggs);
      && Mirrored(env, r)
      && author in r.byAuthor
      && r.byAuthor.Keys == s.byAuthor.Keys + {author}
      && (forall a :: a in s.byAuthor && a != author ==> r.byAuthor[a] == s.byAuthor[a])
      && Get(r.byAuthor[author], repoName) == Some(eggs)
      && (forall k :: k != repoName ==>
            Get(r.byAuthor[author], k) ==
              if author in s.byAuthor then Get(s.byAuthor[author], k) else Get(Lookup(s.caches, author).GetOr([]), k))
      && (WriteThrows(env, s, author, repoName, eggs) ==> r.caches == s.caches && r.lists == s.lists)
      && (!WriteThrows(env, s, author, repoName, eggs) ==>
            && author in r.caches && r.caches[author] == r.byAuthor[author]
            && author in r.lists && |r.lists[author]| == SumOfLengths(r.byAuthor[author]))
  {
    MergeStepMirrored(env, s, author, repoName, eggs);
    MergeStepStore(env, s, author, repoName, eggs);
    FlattenKeepsAll(MergeStep(env, s, author, repoName, eggs).byAuthor[author]);
  }

  lemma MergeStepMirrored(env: Env, s: RunState, author: string, repoName: string, eggs: seq<Egg>)
    requires Mirrored(env, s)
    ensures var r := MergeStep(env, s, author, repoName, eggs);
      && Mirrored(env, r)
      && author in r.byAuthor
      && r.byAuthor.Keys == s.byAuthor.Keys + {author}
      && (forall a :: a in s.byAuthor && a != author ==> r.byAuthor[a] == s.byAuthor[a])
  {
    var store := ReadStore(s, author, repoName, eggs);
    OverlayPriority(Lookup(s.caches, author), Lookup(s.byAuthor, author), repoName, eggs);
    MirroredUpdate(env, s, author, store);
    UpdateKeys(s.byAuthor, author, store);
  }

  lemma UpdateKeys<K, V>(m: map<K, V>, k: K, v: V)
    ensures m[k := v].Keys == m.Keys + {k}
  {
  }

  /** Storing an object for one author, together with its cache file and
      its sorted list, keeps the files in step with memory; so does storing
      only the object, when sorting it throws. */
  lemma MirroredUpdate(env: Env, s: RunState, author: string, store: Store)
    requires Mirrored(env, s)
    requires author in s.caches ==> Covers(store, s.caches[author])
    ensures Mirrored(env, s.(byAuthor := s.byAuthor[author := store],
                             caches := s.caches[author := store],
                             lists := s.lists[author := SortBy(NameKey, env.le, Flatten(store))]))
    ensures env.sortThrows(Flatten(store)) ==> Mirrored(env, s.(byAuthor := s.byAuthor[author := store]))
  {
    MirroredWritten(env, s, author, store);
    if env.sortThrows(Flatten(store)) {
      MirroredUnwritten(env, s, author, store);
    }
  }

  lemma MirroredWritten(env: Env, s: RunState, author: string, store: Store)
    requires Mirrored(env, s)
    ensures Mirrored(env, s.(byAuthor := s.byAuthor[author := store],
                             caches := s.caches[author := store],
                             lists := s.lists[author := SortBy(NameKey, env.le, Flatten(store))]))
  {
    var r := s.(byAuthor := s.byAuthor[author := store],
                caches := s.caches[author := store],
                lists := s.lists[author := SortBy(NameKey, env.le, Flatten(store))]);
    forall a | a in r.byAuthor
      ensures a in r.caches ==> Covers(r.byAuthor[a], r.caches[a])
    {
      if a != author {
        assert a in s.byAuthor;
      }
    }
    forall a | a in r.byAuthor && !env.sortThrows(Flatten(r.byAuthor[a]))
      ensures a in r.caches && r.caches[a] == r.byAuthor[a]
      ensures a in r.lists && r.lists[a] == SortBy(NameKey, env.le, Flatten(r.byAuthor[a]))
    {
      if a != author {
        assert a in s.byAuthor;
      }
    }
  }

  lemma MirroredUnwritten(env: Env, s: RunState, author: string, store: Store)
    requires Mirrored(env, s)
    requires author in s.caches ==> Covers(store, s.caches[author])
    requires env.sortThrows(Flatten(store))
    ensures Mirrored(env, s.(byAuthor := s.byAuthor[author := store]))
  {
    var t := s.(byAuthor := s.byAuthor[author := store]);
    forall a | a in t.byAuthor
      ensures a in t.caches ==> Covers(t.byAuthor[a], t.caches[a])
    {
      if a != author {
        assert a in s.byAuthor;
      }
    }
    forall a | a in t.byAuthor && !env.sortThrows(Flatten(t.byAuthor[a]))
      ensures a in t.caches && t.caches[a] == t.byAuthor[a]
      ensures a in t.lists && t.lists[a] == SortBy(NameKey, env.le, Flatten(t.byAuthor[a]))
    {
      assert a != author && a in s.byAuthor;
    }
  }

  lemma MergeStepStore(env: Env, s: RunState, author: string, repoName: string, eggs: seq<Egg>)
    requires Mirrored(env, s)
    ensures var store := MergeStep(env, s, author, repoName, eggs).byAuthor[author];
      && Get(store, repoName) == Some(eggs)
      && (forall k :: k != repoName ==>
            Get(store, k) ==
              if author in s.byAuthor then Get(s.byAuthor[author], k) else Get(Lookup(s.caches, author).GetOr([]), k))
  {
    var cache := Lookup(s.caches, author);
    var inMemory := Lookup(s.byAuthor, author);
    OverlayPriority(cache, inMemory, repoName, eggs);
    assert MergeStep(env, s, author, repoName, eggs).byAuthor[author] == Overlay(cache, inMemory, repoName, eggs);
    if author in s.byAuthor && author in s.caches {
      assert Covers(s.byAuthor[author], s.caches[author]);
    }
  }

  /** The eggs `EggProcessor` extracts from a repository. */
  function AppEggs(env: Env, repo: Repo): seq<Egg> {
    var p := NewEggProcessor(ProcessorConfig(repo.repository, BranchOf(repo), RepoKey(repo.repository)));
    SortBy(NameKey, env.le, KeptEggs(p, DefaultRules(), CldOrEnglish(env.cld), FunctionsFormatter, env.world(repo.repository).files))
  }

  /** `processRepositories` for one repository: skipped when unchanged;
      nothing happens when the clone fails; the eggs are merged; a `write`
      that throws is caught after `read` changed memory; and otherwise a
      link is recorded unless the second `pushed_at` request fails. */
  function AppStep(env: Env, cache: seq<LinkData>, s: RunState, repo: Repo): RunState {
    var author := AuthorOf(repo.repository);
    var w := env.world(repo.repository);
    if ShouldSkip(cache, w.pushedAt, author) || !w.available then s
    else
      var repoName := RepoKey(repo.repository);
      var eggs := AppEggs(env, repo);
      var merged := MergeStep(env, s, author, repoName, eggs);
      if WriteThrows(env, s, author, repoName, eggs) || w.pushedAt.None? then merged
      else merged.(links := merged.links + [LinkFor(author, merged.lists[author], w.pushedAt.value)])
  }

  function AppRun(env: Env, cache: seq<LinkData>, s: RunState, repos: seq<Repo>): RunState
    decreases |repos|
  {
    if repos == [] then s else AppStep(env, cache, AppRun(env, cache, s, repos[..|repos| - 1]), repos[|repos| - 1])
  }

  lemma AppRunSnoc(env: Env, cache: seq<LinkData>, s: RunState, repos: seq<Repo>, i: nat)
    requires i < |repos|
    ensures AppRun(env, cache, s, repos[..i + 1]) == AppStep(env, cache, AppRun(env, cache, s, repos[..i]), repos[i])
  {
    assert repos[..i + 1][..i] == repos[..i];
  }

  /** What a link records about a refresh: whose row, and which push. */
  function Stamp(l: LinkData): (string, string) {
    (l.author, l.pushedAt)
  }

  function Stamps(links: seq<LinkData>): seq<(string, string)>
    decreases |links|
  {
    if links == [] then [] else Stamps(links[..|links| - 1]) + [Stamp(links[|links| - 1])]
  }

  /** The repositories the application refreshes: changed or unknown,
      available, and answered by the API. */
  function AppRefresh(env: Env, cache: seq<LinkData>): Repo -> Option<(string, string)> {
    (repo: Repo) =>
      var w := env.world(repo.repository);
      var author := AuthorOf(repo.repository);
      if !ShouldSkip(cache, w.pushedAt, author) && w.available && w.pushedAt.Some?
      then Some((author, w.pushedAt.value)) else None
  }

  /** Whether the application links a repository from state `s`: it is
      refreshed and its `write` does not throw. */
  predicate AppLinked(env: Env, cache: seq<LinkData>, s: RunState, repo: Repo) {
    && AppRefresh(env, cache)(repo).Some?
    && !WriteThrows(env, s, AuthorOf(repo.repository), RepoKey(repo.repository), AppEggs(env, repo))
  }

  /** One repository of the application keeps the files in step with
      memory, and a repository whose clone fails changes nothing: the
      error is contained and the walk goes on. */
  lemma AppStepMirrored(env: Env, cache: seq<LinkData>, s: RunState, repo: Repo)
    requires Mirrored(env, s)
    ensures Mirrored(env, AppStep(env, cache, s, repo))
    ensures !env.world(repo.repository).available ==> AppStep(env, cache, s, repo) == s
  {
    var author := AuthorOf(repo.repository);
    var w := env.world(repo.repository);
    if !(ShouldSkip(cache, w.pushedAt, author) || !w.available) {
      MergeStepState(env, s, author, RepoKey(repo.repository), AppEggs(env, repo));
    }
  }

  /** A link is added exactly for a linked repository, with its author and
      its push, and counts every egg of that author in memory; a `write`
      that throws leaves the files and the links as they were. */
  lemma AppStepLinks(env: Env, cache: seq<LinkData>, s: RunState, repo: Repo)
    requires Mirrored(env, s)
    ensures var r := AppStep(env, cache, s, repo);
      && (!AppLinked(env, cache, s, repo) ==> r.links == s.links)
      && (AppLinked(env, cache, s, repo) ==>
            && |r.links| == |s.links| + 1 && r.links[..|s.links|] == s.links
            && Stamp(r.links[|s.links|]) == AppRefresh(env, cache)(repo).value
            && AuthorOf(repo.repository) in r.byAuthor
            && r.links[|s.links|].eggs == SumOfLengths(r.byAuthor[AuthorOf(repo.repository)]))
      && (AppRefresh(env, cache)(repo).Some? && !AppLinked(env, cache, s, repo) ==>
            r.caches == s.caches && r.lists == s.lists)
  {
    var author := AuthorOf(repo.repository);
    var w := env.world(repo.repository);
    if !(ShouldSkip(cache, w.pushedAt, author) || !w.available) {
      MergeStepState(env, s, author, RepoKey(repo.repository), AppEggs(env, repo));
    }
  }

  lemma {:induction false} AppRunMirrored(env: Env, cache: seq<LinkData>, s: RunState, repos: seq<Repo>)
    requires Mirrored(env, s)
    ensures Mirrored(env, AppRun(env, cache, s, repos))
    decreases |repos|
  {
    if repos != [] {
      AppRunMirrored(env, cache, s, repos[..|repos| - 1]);
      AppStepMirrored(env, cache, AppRun(env, cache, s, repos[..|repos| - 1]), repos[|repos| - 1]);
    }
  }

  /** The refresh of one repository as a list of at most one stamp. */
  function Refreshed(f: Repo -> Option<(string, string)>, repo: Repo): seq<(string, string)> {
    if f(repo).Some? then [f(repo).value] else []
  }

  lemma AppStepStamps(env: Env, cache: seq<LinkData>, s: RunState, repo: Repo)
    ensures var r := AppStep(env, cache, s, repo);
      && |s.links| <= |r.links| && r.links[..|s.links|] == s.links
      && Stamps(r.links) == Stamps(s.links) +
           if AppLinked(env, cache, s, repo) then Refreshed(AppRefresh(env, cache), repo) else []
  {
    var r := AppStep(env, cache, s, repo);
    var linked := AppLinked(env, cache, s, repo);
    var refresh := AppRefresh(env, cache)(repo);
    if linked {
      assert r.links == s.links + [r.links[|s.links|]] && Stamp(r.links[|s.links|]) == refresh.value;
    }
    StepStamps(s.links, r.links, linked, refresh);
  }

  /** A step that appends one link exactly when it is linked, and then the
      link of its refresh, appends that refresh's stamp. */
  lemma StepStamps(before: seq<LinkData>, after: seq<LinkData>, linked: bool, refresh: Option<(string, string)>)
    requires linked ==> refresh.Some? && |after| == |before| + 1 && after == before + [after[|before|]]
                        && Stamp(after[|before|]) == refresh.value
    requires !linked ==> after == before
    ensures |before| <= |after| && after[..|before|] == before
    ensures Stamps(after) == Stamps(before) + if linked then [refresh.value] else []
  {
    if linked {
      assert after[..|after| - 1] == before;
    }
  }

  lemma FilterMapSnoc(f: Repo -> Option<(string, string)>, repos: seq<Repo>)
    requires repos != []
    ensures FilterMap(f, repos) == FilterMap(f, repos[..|repos| - 1]) + Refreshed(f, repos[|repos| - 1])
  {
  }

  /** A prefix of a prefix is a prefix. */
  lemma PrefixOfPrefix<T>(a: seq<T>, b: seq<T>, c: seq<T>)
    requires |b| <= |a| && a[..|b|] == b && |c| <= |b| && b[..|c|] == c
    ensures |c| <= |a| && a[..|c|] == c
  {
    assert a[..|c|] == a[..|b|][..|c|];
  }

  /** Appending to a sequence that extends `c` by `x` extends `c` by `x`
      and then `y`. */
  lemma AppendAssoc<T>(a: seq<T>, b: seq<T>, c: seq<T>, x: seq<T>, y: seq<T>)
    requires b == c + x && a == b + y
    ensures a == c + (x + y)
  {
  }

  /** Whether every refreshed repository of the application's walk is
      linked, that is, no `write` of the walk throws. */
  predicate AppWritesSucceed(env: Env, cache: seq<LinkData>, s: RunState, repos: seq<Repo>)
    decreases |repos|
  {
    repos == [] ||
    (&& AppWritesSucceed(env, cache, s, repos[..|repos| - 1])
     && (AppRefresh(env, cache)(repos[|repos| - 1]).Some? ==>
           AppLinked(env, cache, AppRun(env, cache, s, repos[..|repos| - 1]), repos[|repos| - 1])))
  }

  /** With a sort that never throws, every write of the walk succeeds. */
  lemma {:induction false} SortingNeverFails(env: Env, cache: seq<LinkData>, s: RunState, repos: seq<Repo>)
    requires forall l :: !env.sortThrows(l)
    ensures AppWritesSucceed(env, cache, s, repos)
    decreases |repos|
  {
    if repos != [] {
      SortingNeverFails(env, cache, s, repos[..|repos| - 1]);
    }
  }

  /** Over a whole list the application only appends links; when no write
      throws, it appends one per refreshed repository, in list order. */
  lemma {:induction false} AppRunLinks(env: Env, cache: seq<LinkData>, s: RunState, repos: seq<Repo>)
    ensures var r := AppRun(env, cache, s, repos);
      && |s.links| <= |r.links| && r.links[..|s.links|] == s.links
      && (AppWritesSucceed(env, cache, s, repos) ==>
            Stamps(r.links) == Stamps(s.links) + FilterMap(AppRefresh(env, cache), repos))
    decreases |repos|
  {
    if repos != [] {
      var init := repos[..|repos| - 1];
      var repo := repos[|repos| - 1];
      var f := AppRefresh(env, cache);
      AppRunLinks(env, cache, s, init);
      var r' := AppRun(env, cache, s, init);
      AppStepStamps(env, cache, r', repo);
      var r := AppRun(env, cache, s, repos);
      assert r == AppStep(env, cache, r', repo);
      PrefixOfPrefix(r.links, r'.links, s.links);
      if AppWritesSucceed(env, cache, s, repos) {
        FilterMapSnoc(f, repos);
        assert (if AppLinked(env, cache, r', repo) then Refreshed(f, repo) else []) == Refreshed(f, repo);
        AppendAssoc(Stamps(r.links), Stamps(r'.links), Stamps(s.links), FilterMap(f, init), Refreshed(f, repo));
      }
    }
  }

  /** The application's `pushed_at` rule: once the API reports the push
      recorded in the cache, a repository is left alone. */
  lemma UnchangedRepositoryLeftAlone(env: Env, cache: seq<LinkData>, s: RunState, repo: Repo, i: nat)
    requires i < |cache| && cache[i].author == AuthorOf(repo.repository)
    requires forall j :: 0 <= j < i ==> cache[j].author != AuthorOf(repo.repository)
    requires env.world(repo.repository).pushedAt == Some(cache[i].pushedAt)
    ensures AppStep(env, cache, s, repo) == s
  {
    ShouldSkipExactly(cache, env.world(repo.repository).pushedAt, AuthorOf(repo.repository));
  }

  /** The files under `api/`: each author's `.cache.json`, each author's
      list (`.json` and `.min.json` hold the same list), and `links.json`
      (`None` when it does not exist). */
  class ApiFiles {
    var caches: map<string, Store>
    var lists: map<string, seq<Egg>>
    var linksFile: Option<seq<LinkData>>

    constructor(caches: map<string, Store>, lists: map<string, seq<Egg>>, linksFile: Option<seq<LinkData>>)
      ensures this.caches == caches && this.lists == lists && this.linksFile == linksFile
    {
      this.caches := caches;
      this.lists := lists;
      this.linksFile := linksFile;
    }
  }

  function Snapshot(metadata: Metadata, api: ApiFiles, links: seq<LinkData>): RunState
    reads metadata, api
  {
    RunState(metadata.byAuthor, api.caches, api.lists, links)
  }

  /** The merge both orchestrators run, on the objects; it reports
      whether `write` threw. */
  /** What `read()` then `write()` leave, as the step on the snapshot. */
  lemma MergeOutcome(env: Env, s: RunState, author: string, repoName: string, eggs: seq<Egg>,
                     byAuthor: map<string, Store>, out: WriteOutcome)
    requires byAuthor == s.byAuthor[author :=
      Overlay(Lookup(s.caches, author), if author in s.byAuthor then Some(s.byAuthor[author]) else None, repoName, eggs)]
    requires author in byAuthor ==>
      out == if env.sortThrows(Flatten(byAuthor[author])) then SortFailed
             else Wrote(Artifacts(SortBy(NameKey, env.le, Flatten(byAuthor[author])), byAuthor[author]))
    ensures var r := MergeStep(env, s, author, repoName, eggs);
      && out.SortFailed? == WriteThrows(env, s, author, repoName, eggs)
      && r.byAuthor == byAuthor
      && (out.Wrote? ==> r.caches == s.caches[author := out.artifacts.cache]
                         && r.lists == s.lists[author := out.artifacts.merged])
      && (!out.Wrote? ==> r.caches == s.caches && r.lists == s.lists)
  {
  }

  method MergeAndSave(env: Env, metadata: Metadata, api: ApiFiles, author: string, repoName: string,
                      eggs: seq<Egg>) returns (threw: bool)
    modifies metadata, api
    ensures api.linksFile == old(api.linksFile)
    ensures threw == WriteThrows(env, old(Snapshot(metadata, api, [])), author, repoName, eggs)
    ensures var r := MergeStep(env, old(Snapshot(metadata, api, [])), author, repoName, eggs);
      metadata.byAuthor == r.byAuthor && api.caches == r.caches && api.lists == r.lists
  {
    ghost var pre := Snapshot(metadata, api, []);
    var merger := new Merge(author, eggs, repoName);
    merger.Read(metadata, Lookup(api.caches, author));
    var out := merger.Write(metadata, env.le, env.sortThrows);
    MergeOutcome(env, pre, author, repoName, eggs, metadata.byAuthor, out);
    if out.Wrote? {
      api.caches := api.caches[author := out.artifacts.cache];
      api.lists := api.lists[author := out.artifacts.merged];
    }
    threw := out.SortFailed?;
  }

  class EggTrackerApp {
    var links: seq<LinkData>
    var linkCache: seq<LinkData>

    constructor()
      ensures links == [] && linkCache == []
    {
      links := [];
      linkCache := [];
    }

    /** `loadCache`. */
    method LoadCache(api: ApiFiles)
      modifies this
      ensures linkCache == old(linkCache) + api.linksFile.GetOr([])
      ensures links == old(links)
    {
      if api.linksFile.Some? {
        linkCache := linkCache + api.linksFile.value;
      }
    }

    /** `processRepository`, with the skip test of `processRepositories`. */
    method ProcessRepository(env: Env, repo: Repo, metadata: Metadata, api: ApiFiles)
      modifies this, metadata, api
      ensures linkCache == old(linkCache) && api.linksFile == old(api.linksFile)
      ensures Snapshot(metadata, api, links) == AppStep(env, linkCache, old(Snapshot(metadata, api, links)), repo)
    {
      var author := AuthorOf(repo.repository);
      var w := env.world(repo.repository);
      if ShouldSkip(linkCache, w.pushedAt, author) {
        return;
      }
      if !w.available {
        return;
      }
      var repoName := RepoKey(repo.repository);
      var p := NewEggProcessor(ProcessorConfig(repo.repository, BranchOf(repo), repoName));
      var eggs := Process(p, DefaultRules(), CldOrEnglish(env.cld), FunctionsFormatter, env.le, w.files);
      var threw := MergeAndSave(env, metadata, api, author, repoName, eggs);
      if threw || w.pushedAt.None? {
        return;
      }
      links := links + [LinkFor(author, api.lists[author], w.pushedAt.value)];
    }

    /** `processRepositories` over `repositories`. */
    method ProcessRepositories(env: Env, metadata: Metadata, api: ApiFiles)
      modifies this, metadata, api
      ensures linkCache == old(linkCache) && api.linksFile == old(api.linksFile)
      ensures Snapshot(metadata, api, links) == AppRun(env, linkCache, old(Snapshot(metadata, api, links)), Repositories)
    {
      ghost var start := Snapshot(metadata, api, links);
      var repos := Repositories;
      for i := 0 to |repos|
        invariant linkCache == old(linkCache) && api.linksFile == old(api.linksFile)
        invariant Snapshot(metadata, api, links) == AppRun(env, linkCache, start, repos[..i])
      {
        AppRunSnoc(env, linkCache, start, repos, i);
        ProcessRepository(env, repos[i], metadata, api);
      }
      assert repos[..|repos|] == repos;
    }

    /** `saveLinks`: the run's links folded into the cached rows, which
        become `links.json`. */
    method SaveLinks(api: ApiFiles)
      modifies this, api
      ensures links == old(links)
      ensures linkCache == UpsertAll(old(linkCache), links)
      ensures api.linksFile == Some(linkCache)
      ensures api.caches == old(api.caches) && api.lists == old(api.lists)
    {
      for i := 0 to |links|
        invariant links == old(links) && unchanged(api)
        invariant linkCache == UpsertAll(old(linkCache), links[..i])
      {
        assert links[..i + 1][..i] == links[..i];
        var index := FindByAuthor(linkCache, links[i].author);
        if index.Some? {
          linkCache := linkCache[index.value := links[i]];
        } else {
          linkCache := linkCache + [links[i]];
        }
      }
      assert links[..|links|] == links;
      api.linksFile := Some(linkCache);
    }

    /** `run` on a fresh application: load the rows, walk the list, save. */
    method Run(env: Env, metadata: Metadata, api: ApiFiles)
      requires links == [] && linkCache == []
      modifies this, metadata, api
      ensures var cache := old(api.linksFile).GetOr([]);
        var r := AppRun(env, cache, old(Snapshot(metadata, api, [])), Repositories);
        && metadata.byAuthor == r.byAuthor && api.caches == r.caches && api.lists == r.lists
        && links == r.links
        && api.linksFile == Some(UpsertAll(cache, r.links))
    {
      LoadCache(api);
      assert linkCache == old(api.linksFile).GetOr([]);
      ProcessRepositories(env, metadata, api);
      SaveLinks(api);
    }
  }

  /** Whether the script's run has been rejected. */
  datatype Progress = Progress(state: RunState, aborted: bool)

  /** The eggs `getEggs` extracts; the glob of a directory that is not
      there finds nothing. */
  function ScriptEggs(env: Env, repo: Repo): seq<Egg> {
    var w := env.world(repo.repository);
    FilterMap(GetEggs.Step(repo.repository, BranchOf(repo), env.cld, env.format), if w.available then w.files else [])
  }

  /** The script for one repository. Its requests are not caught: a failed
      `pushed_at` request rejects the run, and so does a `write` that
      throws, after `read` changed memory. A failed clone is ignored, so
      the empty list is merged and linked, and then removing the missing
      directory rejects the run. */
  function ScriptStep(env: Env, cache: seq<LinkData>, pr: Progress, repo: Repo): Progress {
    var author := AuthorOf(repo.repository);
    var w := env.world(repo.repository);
    if pr.aborted then pr
    else if w.pushedAt.None? then pr.(aborted := true)
    else if ShouldSkip(cache, w.pushedAt, author) then pr
    else
      var repoName := RepoKey(repo.repository);
      var eggs := ScriptEggs(env, repo);
      var merged := MergeStep(env, pr.state, author, repoName, eggs);
      if WriteThrows(env, pr.state, author, repoName, eggs) then Progress(merged, true)
      else Progress(merged.(links := merged.links + [LinkFor(author, merged.lists[author], w.pushedAt.value)]),
                    !w.available)
  }

  function ScriptRun(env: Env, cache: seq<LinkData>, pr: Progress, repos: seq<Repo>): Progress
    decreases |repos|
  {
    if repos == [] then pr else ScriptStep(env, cache, ScriptRun(env, cache, pr, repos[..|repos| - 1]), repos[|repos| - 1])
  }

  /** What rejects the script at a repository it reaches, whatever the
      state. */
  predicate Fatal(env: Env, cache: seq<LinkData>, repo: Repo) {
    var w := env.world(repo.repository);
    w.pushedAt.None? || (!ShouldSkip(cache, w.pushedAt, AuthorOf(repo.repository)) && !w.available)
  }

  /** Whether the script, still running, reaches a refresh of `repo` whose
      `write` throws. */
  predicate ScriptWriteThrows(env: Env, cache: seq<LinkData>, pr: Progress, repo: Repo) {
    var w := env.world(repo.repository);
    && !pr.aborted && w.pushedAt.Some? && !ShouldSkip(cache, w.pushedAt, AuthorOf(repo.repository))
    && WriteThrows(env, pr.state, AuthorOf(repo.repository), RepoKey(repo.repository), ScriptEggs(env, repo))
  }

  /** The script is rejected at the `i`th repository of its walk from `s`. */
  predicate RejectedAt(env: Env, cache: seq<LinkData>, s: RunState, repos: seq<Repo>, i: nat)
    requires i < |repos|
  {
    || Fatal(env, cache, repos[i])
    || ScriptWriteThrows(env, cache, ScriptRun(env, cache, Progress(s, false), repos[..i]), repos[i])
  }

  /** The repositories the script refreshes: changed or unknown, and
      answered by the API. */
  function ScriptRefresh(env: Env, cache: seq<LinkData>): Repo -> Option<(string, string)> {
    (repo: Repo) =>
      var w := env.world(repo.repository);
      var author := AuthorOf(repo.repository);
      if w.pushedAt.Some? && !ShouldSkip(cache, w.pushedAt, author)
      then Some((author, w.pushedAt.value)) else None
  }

  lemma ScriptStepMirrored(env: Env, cache: seq<LinkData>, pr: Progress, repo: Repo)
    requires Mirrored(env, pr.state)
    ensures Mirrored(env, ScriptStep(env, cache, pr, repo).state)
  {
    var w := env.world(repo.repository);
    var author := AuthorOf(repo.repository);
    if !pr.aborted && w.pushedAt.Some? && !ShouldSkip(cache, w.pushedAt, author) {
      MergeStepState(env, pr.state, author, RepoKey(repo.repository), ScriptEggs(env, repo));
    }
  }

  lemma {:induction false} ScriptRunMirrored(env: Env, cache: seq<LinkData>, pr: Progress, repos: seq<Repo>)
    requires Mirrored(env, pr.state)
    ensures Mirrored(env, ScriptRun(env, cache, pr, repos).state)
    decreases |repos|
  {
    if repos != [] {
      ScriptRunMirrored(env, cache, pr, repos[..|repos| - 1]);
      ScriptStepMirrored(env, cache, ScriptRun(env, cache, pr, repos[..|repos| - 1]), repos[|repos| - 1]);
    }
  }

  /** One repository rejects the script when it is fatal or its write
      throws, and a rejection is never undone. */
  lemma ScriptStepAborted(env: Env, cache: seq<LinkData>, pr: Progress, repo: Repo)
    ensures ScriptStep(env, cache, pr, repo).aborted <==>
            pr.aborted || Fatal(env, cache, repo) || ScriptWriteThrows(env, cache, pr, repo)
  {
  }

  lemma RejectedSnoc(env: Env, cache: seq<LinkData>, s: RunState, repos: seq<Repo>)
    requires repos != []
    ensures var init := repos[..|repos| - 1];
      (exists i :: 0 <= i < |repos| && RejectedAt(env, cache, s, repos, i)) <==>
      (exists i :: 0 <= i < |init| && RejectedAt(env, cache, s, init, i)) || RejectedAt(env, cache, s, repos, |init|)
  {
    var init := repos[..|repos| - 1];
    forall i | 0 <= i < |init|
      ensures RejectedAt(env, cache, s, repos, i) == RejectedAt(env, cache, s, init, i)
    {
      assert repos[..i] == init[..i];
    }
  }

  /** The script is rejected exactly when it reaches a repository that is
      fatal, or whose write throws in the state the walk has reached. */
  lemma {:induction false} ScriptRunAborted(env: Env, cache: seq<LinkData>, s: RunState, repos: seq<Repo>)
    ensures ScriptRun(env, cache, Progress(s, false), repos).aborted <==>
            exists i :: 0 <= i < |repos| && RejectedAt(env, cache, s, repos, i)
    decreases |repos|
  {
    if repos != [] {
      var init := repos[..|repos| - 1];
      ScriptRunAborted(env, cache, s, init);
      ScriptStepAborted(env, cache, ScriptRun(env, cache, Progress(s, false), init), repos[|repos| - 1]);
      RejectedSnoc(env, cache, s, repos);
    }
  }

  /** One repository that does not reject the script appends the link of
      its refresh, if any. */
  lemma ScriptStepStamps(env: Env, cache: seq<LinkData>, pr: Progress, repo: Repo)
    ensures !ScriptStep(env, cache, pr, repo).aborted ==>
      Stamps(ScriptStep(env, cache, pr, repo).state.links) == Stamps(pr.state.links) + Refreshed(ScriptRefresh(env, cache), repo)
  {
    var r := ScriptStep(env, cache, pr, repo);
    if !r.aborted && ScriptRefresh(env, cache)(repo).Some? {
      assert r.state.links[..|r.state.links| - 1] == pr.state.links;
    }
  }

  /** A run that is not rejected adds one link per refreshed repository,
      in list order. */
  lemma {:induction false} ScriptRunLinks(env: Env, cache: seq<LinkData>, s: RunState, repos: seq<Repo>)
    ensures var pr := ScriptRun(env, cache, Progress(s, false), repos);
      !pr.aborted ==> Stamps(pr.state.links) == Stamps(s.links) + FilterMap(ScriptRefresh(env, cache), repos)
    decreases |repos|
  {
    if repos != [] {
      var init := repos[..|repos| - 1];
      var repo := repos[|repos| - 1];
      var f := ScriptRefresh(env, cache);
      ScriptRunLinks(env, cache, s, init);
      var pr' := ScriptRun(env, cache, Progress(s, false), init);
      var pr := ScriptStep(env, cache, pr', repo);
      assert pr == ScriptRun(env, cache, Progress(s, false), repos);
      ScriptStepAborted(env, cache, pr', repo);
      ScriptStepStamps(env, cache, pr', repo);
      FilterMapSnoc(f, repos);
      if !pr.aborted {
        AppendAssoc(Stamps(pr.state.links), Stamps(pr'.state.links), Stamps(s.links), FilterMap(f, init), Refreshed(f, repo));
      }
    }
  }

  /** When every request is answered, every repository is available and
      no sort throws, the script is not rejected and refreshes exactly the
      repositories the application refreshes, for the same authors and
      pushes. */
  lemma ScriptAgreesWithApp(env: Env, cache: seq<LinkData>, s: RunState, repos: seq<Repo>)
    requires Mirrored(env, s)
    requires forall i :: 0 <= i < |repos| ==>
      env.world(repos[i].repository).pushedAt.Some? && env.world(repos[i].repository).available
    requires forall l :: !env.sortThrows(l)
    ensures !ScriptRun(env, cache, Progress(s, false), repos).aborted
    ensures Stamps(ScriptRun(env, cache, Progress(s, false), repos).state.links) == Stamps(AppRun(env, cache, s, repos).links)
  {
    ScriptRunAborted(env, cache, s, repos);
    ScriptRunLinks(env, cache, s, repos);
    SortingNeverFails(env, cache, s, repos);
    AppRunLinks(env, cache, s, repos);
    FilterMapAgree(ScriptRefresh(env, cache), AppRefresh(env, cache), repos);
  }

  /** The body of the script's loop for one repository it reaches. */
  method ScriptRepository(env: Env, linkCache: seq<LinkData>, repo: Repo, metadata: Metadata, api: ApiFiles,
                          links: seq<LinkData>) returns (links': seq<LinkData>, aborted: bool)
    modifies metadata, api
    ensures api.linksFile == old(api.linksFile)
    ensures Progress(Snapshot(metadata, api, links'), aborted) ==
            ScriptStep(env, linkCache, Progress(old(Snapshot(metadata, api, links)), false), repo)
  {
    var author := AuthorOf(repo.repository);
    var w := env.world(repo.repository);
    links' := links;
    aborted := false;
    if w.pushedAt.None? {
      aborted := true;
    } else if !ShouldSkip(linkCache, w.pushedAt, author) {
      var eggs := GetEggs.GetEggs(repo.repository, BranchOf(repo), env.cld, env.format,
                                  if w.available then w.files else []);
      var threw := MergeAndSave(env, metadata, api, author, RepoKey(repo.repository), eggs);
      if threw {
        aborted := true;
      } else {
        links' := links + [LinkFor(author, api.lists[author], w.pushedAt.value)];
        aborted := !w.available;
      }
    }
  }

  /** The script's final `.then`: the run's links folded into the loaded
      rows. */
  method SaveRows(cache: seq<LinkData>, links: seq<LinkData>) returns (rows: seq<LinkData>)
    ensures rows == UpsertAll(cache, links)
  {
    rows := cache;
    for j := 0 to |links|
      invariant rows == UpsertAll(cache, links[..j])
    {
      assert links[..j + 1][..j] == links[..j];
      var index := FindByAuthor(rows, links[j].author);
      if index.Some? {
        rows := rows[index.value := links[j]];
      } else {
        rows := rows + [links[j]];
      }
    }
    assert links[..|links|] == links;
  }

  lemma ScriptRunSnoc(env: Env, cache: seq<LinkData>, pr: Progress, repos: seq<Repo>, i: nat)
    requires i < |repos|
    ensures ScriptRun(env, cache, pr, repos[..i + 1]) == ScriptStep(env, cache, ScriptRun(env, cache, pr, repos[..i]), repos[i])
  {
    assert repos[..i + 1][..i] == repos[..i];
  }

  /** The script's loop over a list: it stops at the first rejection. */
  method WalkScript(env: Env, linkCache: seq<LinkData>, repos: seq<Repo>, metadata: Metadata, api: ApiFiles)
    returns (links: seq<LinkData>, aborted: bool)
    modifies metadata, api
    ensures api.linksFile == old(api.linksFile)
    ensures var pr := ScriptRun(env, linkCache, Progress(old(Snapshot(metadata, api, [])), false), repos);
      && metadata.byAuthor == pr.state.byAuthor && api.caches == pr.state.caches && api.lists == pr.state.lists
      && links == pr.state.links && aborted == pr.aborted
  {
    ghost var start := Progress(Snapshot(metadata, api, []), false);
    links := [];
    aborted := false;
    var i := 0;
    while i < |repos| && !aborted
      invariant 0 <= i <= |repos|
      invariant api.linksFile == old(api.linksFile)
      invariant Progress(Snapshot(metadata, api, links), aborted) == ScriptRun(env, linkCache, start, repos[..i])
    {
      ScriptRunSnoc(env, linkCache, start, repos, i);
      links, aborted := ScriptRepository(env, linkCache, repos[i], metadata, api, links);
      i := i + 1;
    }
    if aborted {
      AbortedPrefix(env, linkCache, start, repos, i);
    } else {
      assert repos[..i] == repos;
    }
  }

  /** The script `start.ts` on its list: rows loaded, repositories walked,
      and, only when nothing rejected the run, the rows saved. It returns
      whether the run was rejected. */
  method Start(env: Env, metadata: Metadata, api: ApiFiles) returns (aborted: bool)
    modifies metadata, api
    ensures var cache := old(api.linksFile).GetOr([]);
      var pr := ScriptRun(env, cache, Progress(old(Snapshot(metadata, api, [])), false), ScriptRepositories);
      && metadata.byAuthor == pr.state.byAuthor && api.caches == pr.state.caches && api.lists == pr.state.lists
      && aborted == pr.aborted
      && api.linksFile == if aborted then old(api.linksFile) else Some(UpsertAll(cache, pr.state.links))
  {
    aborted := StartOn(env, ScriptRepositories, metadata, api);
  }

  /** The body of `start()`, for any list of repositories. */
  method StartOn(env: Env, repos: seq<Repo>, metadata: Metadata, api: ApiFiles) returns (aborted: bool)
    modifies metadata, api
    ensures var cache := old(api.linksFile).GetOr([]);
      var pr := ScriptRun(env, cache, Progress(old(Snapshot(metadata, api, [])), false), repos);
      && metadata.byAuthor == pr.state.byAuthor && api.caches == pr.state.caches && api.lists == pr.state.lists
      && aborted == pr.aborted
      && api.linksFile == if aborted then old(api.linksFile) else Some(UpsertAll(cache, pr.state.links))
  {
    var linkCache := api.linksFile.GetOr([]);
    var links;
    links, aborted := WalkScript(env, linkCache, repos, metadata, api);
    if !aborted {
      var rows := SaveRows(linkCache, links);
      api.linksFile := Some(rows);
    }
  }

  /** Once rejected, the rest of the list changes nothing. */
  lemma {:induction false} AbortedPrefix(env: Env, cache: seq<LinkData>, pr: Progress, repos: seq<Repo>, i: nat)
    requires i <= |repos| && ScriptRun(env, cache, pr, repos[..i]).aborted
    ensures ScriptRun(env, cache, pr, repos) == ScriptRun(env, cache, pr, repos[..i])
    decreases |repos|
  {
    if i == |repos| {
      assert repos[..i] == repos;
    } else {
      var init := repos[..|repos| - 1];
      assert init[..i] == repos[..i];
      AbortedPrefix(env, cache, pr, init, i);
    }
  }
}
