/** The repository providers: `BaseProvider` (a repository id `author/repo`,
    a branch and an ignore list) and its three kinds. `PelicanEggsProvider`
    types every egg by the repository name, `Ashu11AProvider` walks the
    path up past noise components, and `DefaultProvider` takes the folder
    that holds the egg file. A provider's fields are set only by its
    constructor, so a provider is a value; the getters are its fields. */
module Providers {
  import opened Wrappers
  import opened Text
  import opened Paths
  import Rules

  datatype ProviderKind = PelicanEggs | Ashu11A | Generic

  datatype Provider = Provider(repository: string, branch: string, ignorePatterns: seq<string>, kind: ProviderKind)

  const PelicanAuthor: string := "pelican-eggs"
  const AshuRepository: string := "Ashu11-A/Ashu_eggs"

  /** The `BaseProvider` constructor: `branch` defaults to `main` and the
      ignore list to `[]`. */
  function NewProvider(repository: string, branch: Option<string>, ignorePatterns: Option<seq<string>>, kind: ProviderKind): (r: Provider)
    ensures r.repository == repository && r.kind == kind
    ensures r.branch == (if branch.Some? then branch.value else "main")
    ensures r.ignorePatterns == (if ignorePatterns.Some? then ignorePatterns.value else [])
  {
    Provider(repository, branch.GetOr("main"), ignorePatterns.GetOr([]), kind)
  }

  /** Leaving out the branch is giving `main`, and leaving out the ignore
      list is giving `[]`. */
  lemma ProviderDefaults(repository: string, branch: Option<string>, ignorePatterns: Option<seq<string>>,
                         kind: ProviderKind)
    ensures NewProvider(repository, None, ignorePatterns, kind) == NewProvider(repository, Some("main"), ignorePatterns, kind)
    ensures NewProvider(repository, branch, None, kind) == NewProvider(repository, branch, Some([]), kind)
  {
  }

  /** `new PelicanEggsProvider(repoName, branch)`. */
  function PelicanEggsProvider(repoName: string, branch: Option<string>): (r: Provider)
    ensures r.repository == PelicanAuthor + "/" + repoName
    ensures r.ignorePatterns == [] && r.kind == PelicanEggs
    ensures branch.None? ==> r.branch == "main"
  {
    NewProvider(PelicanAuthor + "/" + repoName, branch, None, PelicanEggs)
  }

  /** `new Ashu11AProvider()`. */
  function Ashu11AProvider(): (r: Provider)
    ensures r.repository == AshuRepository && r.branch == "main"
    ensures r.ignorePatterns == [Rules.ArchivedGlob, Rules.PackageJsonGlob]
  {
    NewProvider(AshuRepository, Some("main"), Some([Rules.ArchivedGlob, Rules.PackageJsonGlob]), Ashu11A)
  }

  /** `new DefaultProvider(repository, branch, ignorePatterns)`: the caller's
      patterns follow `**\/package.json`. */
  function DefaultProvider(repository: string, branch: Option<string>, ignorePatterns: Option<seq<string>>): (r: Provider)
    ensures r.repository == repository && r.kind == Generic
    ensures branch.None? ==> r.branch == "main"
    ensures |r.ignorePatterns| >= 1 && r.ignorePatterns[0] == Rules.PackageJsonGlob
    ensures ignorePatterns.Some? ==> r.ignorePatterns[1..] == ignorePatterns.value
    ensures ignorePatterns.None? ==> r.ignorePatterns == [Rules.PackageJsonGlob]
  {
    NewProvider(repository, branch, Some([Rules.PackageJsonGlob] + ignorePatterns.GetOr([])), Generic)
  }

  /** `getAuthor`: `repository.split('/')[0]`. */
  function GetAuthor(p: Provider): (r: string)
    ensures '/' !in r && StartsWith(p.repository, r)
    ensures r == p.repository <==> '/' !in p.repository
  {
    AuthorOf(p.repository)
  }

  /** `getRepoName`: `repository.split('/')[1]`, `undefined` without a '/'. */
  function GetRepoName(p: Provider): (r: Option<string>)
    ensures r.None? <==> '/' !in p.repository
    ensures r.Some? ==> '/' !in r.value
  {
    RepoNameOf(p.repository)
  }


  /** `matches`: the author compared with `===`; `PelicanEggsProvider`
      overrides it with a comparison against `pelican-eggs`. */
  predicate Matches(p: Provider, authorRepo: string) {
    match p.kind
    case PelicanEggs => authorRepo == PelicanAuthor
    case _ => GetAuthor(p) == authorRepo
  }

  /** `Ashu11AProvider`'s noise test, made on the basename, so a language
      folder is stripped at any depth. */
  predicate AshuNoise(p: Path) {
    p != [] && (Basename(p) == "eggs" || EndsWith(Basename(p), ".json")
                || AsciiLower(Basename(p)) in ["pt-br", "en"])
  }

  /** `Ashu11AProvider.getTypeRecursive`. */
  function AshuWalk(p: Path): string {
    StripNoise(p, AshuNoise)
  }

  /** The trailing file of `path.replace(/\/[^/]+\.json$/, '')`: the last
      component when the path has a '/' before it and it is at least one
      character followed by `.json`. */
  predicate HasJsonLeaf(p: Path) {
    |p| >= 2 && |Basename(p)| >= 6 && EndsWith(Basename(p), ".json")
  }

  /** `DefaultProvider.getType`: the folder holding the `.json` file, else the
      last component; the empty path gives "". */
  function DefaultProviderType(p: Path): string {
    if HasJsonLeaf(p) then p[|p| - 2]
    else if p == [] then ""
    else Basename(p)
  }

  /** The regular-expression replacement on the path string: the match can
      only start at the last '/', and must run to the end. */
  function StripJsonLeaf(s: string): string {
    match LastIndexOfChar(s, '/')
    case None => s
    case Some(j) =>
      if |s[j + 1..]| >= 6 && EndsWith(s[j + 1..], ".json") then s[..j] else s
  }

  /** `getType(path, repoName)`. */
  function GetType(p: Provider, path: Path, repoName: string): string {
    match p.kind
    case PelicanEggs => repoName
    case Ashu11A => AshuWalk(path)
    case Generic => DefaultProviderType(path)
  }

  /** Composing `author/repo` and splitting it again gives both halves back. */
  lemma AuthorRepoRoundTrip(p: Provider, author: string, repoName: string)
    requires p.repository == author + "/" + repoName
    requires '/' !in author && '/' !in repoName
    ensures GetAuthor(p) == author
    ensures GetRepoName(p) == Some(repoName)
  {
    RepositoryRoundTrip(author, repoName);
  }

  /** Every pelican provider has author `pelican-eggs`, so its overridden
      `matches` agrees with the base test on the author. */
  lemma PelicanMatchesIsAuthorTest(repoName: string, branch: Option<string>, authorRepo: string)
    requires '/' !in repoName
    ensures var p := PelicanEggsProvider(repoName, branch);
      && GetAuthor(p) == PelicanAuthor
      && GetRepoName(p) == Some(repoName)
      && (Matches(p, authorRepo) <==> GetAuthor(p) == authorRepo)
  {
    AuthorRepoRoundTrip(PelicanEggsProvider(repoName, branch), PelicanAuthor, repoName);
  }

  /** `getType` of a pelican provider is the repository name whatever the path. */
  lemma PelicanTypeIgnoresPath(repoName: string, branch: Option<string>, p: Path, q: Path, r: string)
    ensures GetType(PelicanEggsProvider(repoName, branch), p, r) == r
    ensures GetType(PelicanEggsProvider(repoName, branch), p, r) == GetType(PelicanEggsProvider(repoName, branch), q, r)
  {
  }

  /** `Ashu11AProvider`'s answer is never noise: not `eggs`, no `.json`
      ending, not a language folder in any case; it is "" (empty path), "."
      (everything stripped) or a component of the path. */
  lemma AshuWalkNeverNoise(p: Path)
    ensures var r := AshuWalk(p);
      && r != "eggs" && !EndsWith(r, ".json")
      && AsciiLower(r) !in ["pt-br", "en"]
      && (r == "" <==> p == [])
      && (r == "." || r == "" || r in p)
  {
    StripNoiseKept(p, AshuNoise);
    var r := AshuWalk(p);
    if r == "" {
      assert AsciiLower(r) == "";
    } else if r == "." {
      assert AsciiLower(r) == ".";
    } else {
      var k :| 0 <= k < |p| && r == p[k] && !NoiseAt(p, AshuNoise, k);
      assert Basename(p[..k + 1]) == p[k];
    }
  }

  /** The basename test strips `en` at any depth: `x/en/y.json` gives `x`,
      where `DefaultRule` keeps `en`. */
  lemma AshuStripsInnerLanguageFolder()
    ensures AshuWalk(["x", "en", "y.json"]) == "x"
    ensures Rules.DefaultRuleWalk(["x", "en", "y.json"]) == "en"
  {
    var p: Path := ["x", "en", "y.json"];
    var q: Path := ["x", "en"];
    var e: Path := ["x"];
    assert AshuWalk(e) == "x" by {
      assert AsciiLower("x") == "x";
      assert !AshuNoise(e);
    }
    assert AshuWalk(q) == AshuWalk(e) by {
      assert AsciiLower("en") == "en";
      assert AshuNoise(q) && Parent(q) == e;
    }
    assert AshuWalk(p) == AshuWalk(q) by {
      assert EndsWith("y.json", ".json");
      assert AshuNoise(p) && Parent(p) == q;
    }
    Rules.DefaultWalkKeepsInnerLanguageFolder();
  }

  /** A path made only of noise is walked up to ".". */
  lemma AshuWalkExhausted()
    ensures AshuWalk(["eggs", "PT-BR", "x.json"]) == "."
  {
    var p: Path := ["eggs", "PT-BR", "x.json"];
    var q: Path := ["eggs", "PT-BR"];
    NoiseStep(p);
    assert Parent(p) == q;
    PtBrLowered();
    NoiseStep(q);
    assert Parent(q) == ["eggs"];
  }

  /** A noise component is walked past. */
  lemma NoiseStep(p: Path)
    requires |p| >= 2 && AshuNoise(p)
    ensures AshuWalk(p) == AshuWalk(Parent(p))
  {
  }

  lemma PtBrLowered()
    ensures AsciiLower("PT-BR") == "pt-br"
  {
  }

  /** The last piece of `s.split('/')`. */
  function LastPiece(s: string): string {
    var parts := SplitOn(s, '/');
    parts[|parts| - 1]
  }

  /** The regular expression removes the leaf exactly when `HasJsonLeaf`
      holds; the path of two or more components keeps its parent string. */
  lemma StripJsonLeafOnPath(p: Path)
    requires |p| >= 2
    ensures HasJsonLeaf(p) ==> StripJsonLeaf(ToString(p)) == ToString(Parent(p))
    ensures !HasJsonLeaf(p) ==> StripJsonLeaf(ToString(p)) == ToString(p)
  {
    var s := ToString(p);
    JoinSnoc(p);
    var pre := ToString(Parent(p));
    var b: string := Basename(p);
    assert s == pre + ['/'] + b;
    LastIndexOfCharAt(pre, '/', b);
    assert s[|pre| + 1..] == b;
    assert s[..|pre|] == pre;
  }

  /** The component-level `DefaultProviderType` is what the source computes
      on the path string: strip the `.json` leaf, split on '/', take the last
      piece, and fall back to the basename only when that piece is empty,
      which happens for the empty path alone, whose answer is "". */
  lemma DefaultProviderTypeOnString(p: Path)
    ensures var last := LastPiece(StripJsonLeaf(ToString(p)));
      && (last != "" ==> DefaultProviderType(p) == last)
      && (last == "" <==> p == [])
      && (p == [] ==> DefaultProviderType(p) == "")
  {
    if p == [] {
      assert ToString(p) == "";
      assert LastPiece(StripJsonLeaf("")) == "";
    } else if |p| == 1 {
      SingleComponentType(p);
    } else {
      MultiComponentType(p);
    }
  }

  lemma MultiComponentType(p: Path)
    requires |p| >= 2
    ensures LastPiece(StripJsonLeaf(ToString(p))) == DefaultProviderType(p) != ""
  {
    if HasJsonLeaf(p) {
      JsonLeafType(p);
    } else {
      OtherLeafType(p);
    }
  }

  lemma JsonLeafType(p: Path)
    requires HasJsonLeaf(p)
    ensures LastPiece(StripJsonLeaf(ToString(p))) == p[|p| - 2]
  {
    var q := Parent(p);
    assert q != [] && q[|q| - 1] == p[|p| - 2];
    StripJsonLeafOnPath(p);
    var w := StripJsonLeaf(ToString(p));
    assert w == ToString(q);
    SplitOfToString(q);
    LastPieceOfSplit(w, q);
  }

  lemma OtherLeafType(p: Path)
    requires |p| >= 2 && !HasJsonLeaf(p)
    ensures LastPiece(StripJsonLeaf(ToString(p))) == p[|p| - 1]
  {
    StripJsonLeafOnPath(p);
    SplitOfToString(p);
    LastPieceOfSplit(ToString(p), p);
  }

  lemma LastPieceOfSplit(w: string, q: Path)
    requires q != [] && SplitOn(w, '/') == q
    ensures LastPiece(w) == q[|q| - 1]
  {
  }

  lemma SingleComponentType(p: Path)
    requires |p| == 1
    ensures LastPiece(StripJsonLeaf(ToString(p))) == p[0] == DefaultProviderType(p)
  {
    var s := ToString(p);
    assert s == p[0];
    assert '/' !in s;
    assert LastIndexOfChar(s, '/') == None;
    assert StripJsonLeaf(s) == s;
    assert SplitOn(s, '/') == [s];
  }

  /** `a/b/c.json` gives `b`; `egg.json` has no '/' before it and is its own
      type; a leaf that is not a `.json` file is the type. */
  lemma DefaultProviderExamples()
    ensures DefaultProviderType(["a", "b", "c.json"]) == "b"
    ensures DefaultProviderType(["egg.json"]) == "egg.json"
    ensures DefaultProviderType(["a", "b", "c.txt"]) == "c.txt"
    ensures DefaultProviderType(["a", ".json"]) == ".json"
  {
  }

  /** `DefaultProvider.getType` is never the `.json` file itself when the path
      has a folder: it is the folder. */
  lemma DefaultProviderTypeIsFolder(p: Path)
    requires |p| >= 2 && EndsWith(Basename(p), ".json") && |Basename(p)| >= 6
    ensures DefaultProviderType(p) == Basename(Parent(p))
  {
  }
}
