/** `genMap`: maps the egg files of one repository to records whose type is
    read off fixed positions of the path, then merges them by name into the
    author's previous list, which is what gets written back. The previous
    list (`None` when `api/<author>.json` does not exist), cld and
    `formatBytes` of `./format` are inputs. */
module GenMap {
  import opened Wrappers
  import opened Text
  import opened Paths
  import opened Rules
  import Formatter
  import opened Eggs
  import opened Sequences
  import EggProcessing

  /** The gate: more than 735 bytes and a name that is not `undefined`; the
      author is not looked at. */
  predicate Accepts(config: EggConfig, size: nat) {
    size > MinEggSize && Defined(config.name)
  }

  lemma AuthorNotChecked(config: EggConfig, size: nat)
    requires size > MinEggSize && Defined(config.name)
    ensures Accepts(config.(author := Absent), size)
    ensures !Accepts(config.(name := Absent), size)
    ensures !Accepts(config, MinEggSize)
  {
  }

  const LanguageFolders: seq<string> := ["pt-br", "en"]

  /** `pathEgg.split('/')`. */
  function PathParts(p: Path): (r: seq<string>)
    ensures |r| >= 1
  {
    if p == [] then [""] else p
  }

  lemma PathPartsIsSplit(p: Path)
    ensures PathParts(p) == SplitOn(ToString(p), '/')
  {
    if p != [] {
      SplitOfToString(p);
    }
  }

  /** The positional type: the repository name for `pelican-eggs`; the first
      component (lower-cased, its first `game_eggs` renamed `games`) when it
      is not `eggs`; the third when the second is a language folder; no type
      otherwise, and none for a type ending in `.json`. Reading the second
      component of a one-component path throws. */
  function PositionalType(authorEggs: string, repoName: Option<string>, pathEgg: Path): (r: Result<Option<string>>)
    ensures r.Success? && r.value.Some? ==> !EndsWith(r.value.value, ".json")
  {
    var parts := PathParts(pathEgg);
    var t: Result<Option<string>> :=
      if authorEggs == PelicanAuthor then Success(repoName)
      else if AsciiLower(parts[0]) != "eggs" then Success(Some(ReplaceFirst(AsciiLower(parts[0]), "game_eggs", "games")))
      else if |parts| < 2 then Failure("TypeError")
      else if AsciiLower(parts[1]) in LanguageFolders then Success(if |parts| >= 3 then Some(parts[2]) else None)
      else Success(None);
    match t
    case Failure(e) => Failure(e)
    case Success(ty) => Success(if ty.Some? && EndsWith(ty.value, ".json") then None else ty)
  }

  /** For `pelican-eggs` the type is the repository name, whatever the path. */
  lemma PelicanTypeIsRepoName(repoName: string, p: Path, q: Path)
    requires !EndsWith(repoName, ".json")
    ensures PositionalType(PelicanAuthor, Some(repoName), p) == Success(Some(repoName))
    ensures PositionalType(PelicanAuthor, Some(repoName), p) == PositionalType(PelicanAuthor, Some(repoName), q)
  {
  }

  /** Outside `eggs`, the top folder names the type. */
  lemma TopFolderType(authorEggs: string, repoName: Option<string>, p: Path)
    requires authorEggs != PelicanAuthor && p != [] && AsciiLower(p[0]) != "eggs"
    ensures var t := ReplaceFirst(AsciiLower(p[0]), "game_eggs", "games");
      PositionalType(authorEggs, repoName, p) == Success(if EndsWith(t, ".json") then None else Some(t))
  {
  }

  /** Under `eggs/<language>/`, the next folder names the type. */
  lemma LocalisedType(authorEggs: string, repoName: Option<string>, p: Path)
    requires authorEggs != PelicanAuthor && |p| >= 3 && AsciiLower(p[0]) == "eggs"
    requires AsciiLower(p[1]) in LanguageFolders && !EndsWith(p[2], ".json")
    ensures PositionalType(authorEggs, repoName, p) == Success(Some(p[2]))
  {
  }

  /** A JSON file directly under `eggs/`, or under another folder of
      `eggs/`, gets no type. */
  lemma OtherEggsFoldersUntyped(authorEggs: string, repoName: Option<string>, p: Path)
    requires authorEggs != PelicanAuthor && |p| >= 2 && AsciiLower(p[0]) == "eggs"
    requires AsciiLower(p[1]) !in LanguageFolders || (|p| >= 3 && EndsWith(p[2], ".json"))
    ensures PositionalType(authorEggs, repoName, p) == Success(None)
  {
  }

  /** The throwing read needs a one-component path spelled `eggs`, which is
      no JSON file name: for the paths the glob yields the type never
      throws. */
  lemma JsonFilesNeverThrow(authorEggs: string, repoName: Option<string>, p: Path)
    requires p != [] && EndsWith(p[|p| - 1], ".json")
    ensures PositionalType(authorEggs, repoName, p).Success?
  {
    if |p| == 1 && authorEggs != PelicanAuthor {
      assert |AsciiLower(p[0])| == |p[0]|;
      assert |".json"| == 5;
    }
  }

  /** One file: skipped when unreadable, rejected, or when its type throws;
      otherwise the record with cld's language or `en`. */
  function EggOf(repository: string, branch: string, cld: string -> Option<seq<CldLanguage>>,
                 format: nat -> Formatter.ByteLabel, f: EggFile): (r: Option<Egg>)
    ensures r.Some? <==> f.contents.Parsed? && Accepts(f.contents.config, f.contents.size)
                         && PositionalType(AuthorOf(repository), RepoNameOf(repository),
                                           StripFirstSegment(f.path)).Success?
    ensures r.Some? ==> r.value.name == f.contents.config.name && r.value.language.Some?
  {
    match f.contents
    case Unreadable => None
    case Parsed(size, config) =>
      if !Accepts(config, size) then None
      else
        var pathEgg := StripFirstSegment(f.path);
        EggProcessing.CldOrEnglishNeverNull(cld, config);
        match PositionalType(AuthorOf(repository), RepoNameOf(repository), pathEgg)
        case Failure(_) => None
        case Success(ty) =>
          Some(Egg(config.name, config.description, EggProcessing.CldOrEnglish(cld)(config), format(size),
                   ty, config.author, BuildRawGithubUrl(repository, branch, ToString(pathEgg)), config.exportedAt))
  }

  function Step(repository: string, branch: string, cld: string -> Option<seq<CldLanguage>>,
                format: nat -> Formatter.ByteLabel): EggFile -> Option<Egg> {
    (f: EggFile) => EggOf(repository, branch, cld, format, f)
  }

  /** `findIndex` by `name`. */
  function FindByName(data: seq<Egg>, name: JsonField): (r: Option<nat>)
    ensures r.Some? ==> r.value < |data| && data[r.value].name == name
    ensures r.Some? ==> forall j :: 0 <= j < r.value ==> data[j].name != name
    ensures r.None? ==> forall j :: 0 <= j < |data| ==> data[j].name != name
  {
    FirstIndex(data, (e: Egg) => e.name == name)
  }

  /** `findIndex` only looks at names. */
  lemma FindBySameNames(a: seq<Egg>, b: seq<Egg>, name: JsonField)
    requires |a| == |b| && forall i :: 0 <= i < |a| ==> a[i].name == b[i].name
    ensures FindByName(a, name) == FindByName(b, name)
  {
    var ra := FindByName(a, name);
    var rb := FindByName(b, name);
    if ra.Some? && rb.Some? {
      assert a[rb.value].name == name;
      assert b[ra.value].name == name;
    }
  }

  /** The previous list after the loop over the new eggs, and the eggs the
      loop set aside to append. */
  function Upserted(prior: seq<Egg>, mapped: seq<Egg>): (seq<Egg>, seq<Egg>)
    decreases |mapped|
  {
    if mapped == [] then (prior, [])
    else
      var (o, n) := Upserted(prior, mapped[..|mapped| - 1]);
      var e := mapped[|mapped| - 1];
      match FindByName(o, e.name)
      case Some(i) => (o[i := e], n)
      case None => (o, n + [e])
  }

  /** What gets written: the updated previous list, then the set-aside eggs. */
  function Merged(prior: seq<Egg>, mapped: seq<Egg>): seq<Egg> {
    Upserted(prior, mapped).0 + Upserted(prior, mapped).1
  }

  /** A new egg whose name the previous list lacks. */
  function Unmatched(prior: seq<Egg>): Egg -> Option<Egg> {
    (e: Egg) => if FindByName(prior, e.name).None? then Some(e) else None
  }

  /** The previous slot a new egg replaces. */
  predicate Targets(prior: seq<Egg>, e: Egg, i: nat) {
    FindByName(prior, e.name) == Some(i)
  }

  /** No later new egg has the same name. */
  predicate LastOfName(mapped: seq<Egg>, k: nat)
    requires k < |mapped|
  {
    forall k' :: k < k' < |mapped| ==> mapped[k'].name != mapped[k].name
  }

  /** The merge loop keeps the previous list's length and names; a slot no
      new egg targets keeps its entry; a targeted slot holds the last new
      egg of that name; and the eggs set aside are, in order, the new eggs
      whose names the previous list lacks. */
  lemma UpsertedState(prior: seq<Egg>, mapped: seq<Egg>)
    ensures var (o, n) := Upserted(prior, mapped);
      && |o| == |prior|
      && (forall i :: 0 <= i < |prior| ==> o[i].name == prior[i].name)
      && n == FilterMap(Unmatched(prior), mapped)
      && (forall i :: 0 <= i < |prior| && (forall k :: 0 <= k < |mapped| ==> !Targets(prior, mapped[k], i))
                      ==> o[i] == prior[i])
      && (forall i, k :: 0 <= i < |prior| && 0 <= k < |mapped| && Targets(prior, mapped[k], i) && LastOfName(mapped, k)
                         ==> o[i] == mapped[k])
  {
    UpsertedShape(prior, mapped);
    UpsertedUntargeted(prior, mapped);
    UpsertedLastWins(prior, mapped);
  }

  /** One more new egg: it replaces the slot it targets, or is set aside. */
  lemma UpsertedSnoc(prior: seq<Egg>, mapped: seq<Egg>)
    requires mapped != []
    requires var o' := Upserted(prior, mapped[..|mapped| - 1]).0;
      |o'| == |prior| && forall i :: 0 <= i < |prior| ==> o'[i].name == prior[i].name
    ensures var (o', n') := Upserted(prior, mapped[..|mapped| - 1]);
      var e := mapped[|mapped| - 1];
      Upserted(prior, mapped) ==
        match FindByName(prior, e.name)
        case Some(i) => (o'[i := e], n')
        case None => (o', n' + [e])
  {
    var o' := Upserted(prior, mapped[..|mapped| - 1]).0;
    FindBySameNames(o', prior, mapped[|mapped| - 1].name);
  }

  lemma {:induction false} UpsertedShape(prior: seq<Egg>, mapped: seq<Egg>)
    ensures var (o, n) := Upserted(prior, mapped);
      && |o| == |prior|
      && (forall i :: 0 <= i < |prior| ==> o[i].name == prior[i].name)
      && n == FilterMap(Unmatched(prior), mapped)
    decreases |mapped|
  {
    if mapped != [] {
      UpsertedShape(prior, mapped[..|mapped| - 1]);
      UpsertedSnoc(prior, mapped);
    }
  }

  lemma {:induction false} UpsertedUntargeted(prior: seq<Egg>, mapped: seq<Egg>)
    ensures var o := Upserted(prior, mapped).0;
      |o| == |prior| &&
      forall i :: 0 <= i < |prior| && (forall k :: 0 <= k < |mapped| ==> !Targets(prior, mapped[k], i))
                  ==> o[i] == prior[i]
    decreases |mapped|
  {
    UpsertedShape(prior, mapped);
    if mapped != [] {
      var init := mapped[..|mapped| - 1];
      var e := mapped[|mapped| - 1];
      UpsertedUntargeted(prior, init);
      UpsertedShape(prior, init);
      UpsertedSnoc(prior, mapped);
      var o := Upserted(prior, mapped).0;
      forall i | 0 <= i < |prior| && (forall k :: 0 <= k < |mapped| ==> !Targets(prior, mapped[k], i))
        ensures o[i] == prior[i]
      {
        assert !Targets(prior, e, i);
        forall k | 0 <= k < |init| ensures !Targets(prior, init[k], i) {
          assert init[k] == mapped[k];
        }
      }
    }
  }

  lemma {:induction false} UpsertedLastWins(prior: seq<Egg>, mapped: seq<Egg>)
    ensures var o := Upserted(prior, mapped).0;
      |o| == |prior| &&
      forall i, k :: 0 <= i < |prior| && 0 <= k < |mapped| && Targets(prior, mapped[k], i) && LastOfName(mapped, k)
                     ==> o[i] == mapped[k]
    decreases |mapped|
  {
    UpsertedShape(prior, mapped);
    if mapped != [] {
      var init := mapped[..|mapped| - 1];
      var e := mapped[|mapped| - 1];
      UpsertedLastWins(prior, init);
      UpsertedShape(prior, init);
      UpsertedSnoc(prior, mapped);
      var o := Upserted(prior, mapped).0;
      forall i, k | 0 <= i < |prior| && 0 <= k < |mapped| && Targets(prior, mapped[k], i) && LastOfName(mapped, k)
        ensures o[i] == mapped[k]
      {
        if k < |init| {
          assert init[k] == mapped[k];
          assert e.name != mapped[k].name;
          assert !Targets(prior, e, i);
          assert LastOfName(init, k) by {
            forall k' | k < k' < |init| ensures init[k'].name != init[k].name {
              assert init[k'] == mapped[k'];
            }
          }
        }
      }
    }
  }

  /** The merge loop: `oldData[index] = egg` for a known name, otherwise the
      egg is set aside; the set-aside eggs are appended at the end. */
  method MergeIntoOld(prior: seq<Egg>, mapped: seq<Egg>) returns (merged: seq<Egg>)
    ensures merged == Merged(prior, mapped)
  {
    var oldData := prior;
    var newData := [];
    for k := 0 to |mapped|
      invariant (oldData, newData) == Upserted(prior, mapped[..k])
    {
      assert mapped[..k + 1][..k] == mapped[..k];
      var egg := mapped[k];
      var index := FindByName(oldData, egg.name);
      if index.Some? {
        oldData := oldData[index.value := egg];
      } else {
        newData := newData + [egg];
      }
    }
    assert mapped[..|mapped|] == mapped;
    merged := oldData + newData;
  }

  /** Nothing is lost: the merged list is as long as the previous one plus
      the new eggs with unknown names, every previous entry whose name no new
      egg has is kept in its place, a known name takes the last new egg of
      that name, and the unknown ones follow in input order. */
  lemma MergedKeepsEverything(prior: seq<Egg>, mapped: seq<Egg>)
    ensures var m := Merged(prior, mapped);
      && |m| == |prior| + |FilterMap(Unmatched(prior), mapped)|
      && m[|prior|..] == FilterMap(Unmatched(prior), mapped)
      && (forall i :: 0 <= i < |prior| ==> m[i].name == prior[i].name)
      && (forall i :: 0 <= i < |prior| && (forall k :: 0 <= k < |mapped| ==> mapped[k].name != prior[i].name)
                      ==> m[i] == prior[i])
      && (forall i, k :: 0 <= i < |prior| && 0 <= k < |mapped| && Targets(prior, mapped[k], i) && LastOfName(mapped, k)
                         ==> m[i] == mapped[k])
  {
    UpsertedState(prior, mapped);
    var m := Merged(prior, mapped);
    forall i | 0 <= i < |prior| && (forall k :: 0 <= k < |mapped| ==> mapped[k].name != prior[i].name)
      ensures m[i] == prior[i]
    {
      forall k | 0 <= k < |mapped| ensures !Targets(prior, mapped[k], i) {
      }
    }
  }

  /** A later egg of the same name wins: mapping `a` then `b` of one known
      name leaves `b` in its slot. */
  lemma LastOfNameWins(prior: seq<Egg>, a: Egg, b: Egg, i: nat)
    requires i < |prior| && a.name == b.name && Targets(prior, a, i)
    ensures Merged(prior, [a, b]) == prior[i := b]
  {
    assert [a, b][..1] == [a];
    assert [a][..0] == [];
    assert Upserted(prior, [a]) == (prior[i := a], []);
    FindBySameNames(prior[i := a], prior, b.name);
    assert Upserted(prior, [a, b]) == (prior[i := a][i := b], []);
    assert prior[i := a][i := b] == prior[i := b];
  }

  /** `genMap(eggs, branch, repository)`: the records of the files, in file
      order, are what it returns; the merged list is what it writes to the
      author's two files. */
  method GenerateMap(files: seq<EggFile>, branch: string, repository: string,
                     cld: string -> Option<seq<CldLanguage>>, format: nat -> Formatter.ByteLabel,
                     previous: Option<seq<Egg>>) returns (mapping: seq<Egg>, written: seq<Egg>)
    ensures mapping == FilterMap(Step(repository, branch, cld, format), files)
    ensures written == Merged(previous.GetOr([]), mapping)
  {
    mapping := [];
    for i := 0 to |files|
      invariant mapping == FilterMap(Step(repository, branch, cld, format), files[..i])
    {
      assert files[..i + 1][..i] == files[..i];
      var egg := EggOf(repository, branch, cld, format, files[i]);
      if egg.Some? {
        mapping := mapping + [egg.value];
      }
    }
    assert files[..|files|] == files;
    var oldData := if previous.Some? then previous.value else [];
    written := MergeIntoOld(oldData, mapping);
  }
}
