/** The records the extraction pipelines read and write: the fields of a
    parsed egg configuration (`EggConfig`), the egg record built from it,
    the raw GitHub link of an egg file and the answer of the `cld` language
    detector. */
module Eggs {
  import opened Wrappers
  import opened Text
  import opened Paths
  import Formatter

  /** A string-valued field of a parsed JSON object: missing (`undefined`),
      `null`, or a string. Other JSON kinds are not modelled. */
  datatype JsonField = Absent | Null | Text(text: string)

  /** JavaScript truthiness of such a field: a non-empty string. */
  predicate Truthy(f: JsonField) {
    f.Text? && f.text != ""
  }

  /** `f !== undefined`. */
  predicate Defined(f: JsonField) {
    !f.Absent?
  }

  /** An entry of `variables`: only the two fields the detector reads. */
  datatype Variable = Variable(name: JsonField, description: JsonField)

  /** The fields of `EggConfig` the pipelines read. `variables` is `None`
      when it is missing or not an array. */
  datatype EggConfig = EggConfig(
    name: JsonField,
    author: JsonField,
    description: JsonField,
    exportedAt: JsonField,
    variables: Option<seq<Variable>>)

  /** A file the glob returned: its path, and either a failure of
      `readFile`, `stat` or `JSON.parse`, or its size and parsed contents. */
  datatype FileContents = Unreadable | Parsed(size: nat, config: EggConfig)
  datatype EggFile = EggFile(path: Path, contents: FileContents)

  /** The egg record: the configuration's fields copied as they are, the
      detected language (`None` is `null`), the formatted size, the type,
      and the raw link. */
  datatype Egg = Egg(
    name: JsonField,
    description: JsonField,
    language: Option<string>,
    size: Formatter.ByteLabel,
    eggType: Option<string>,
    author: JsonField,
    link: string,
    exportedAt: JsonField)

  /** Files of this size or smaller are too light to be eggs. */
  const MinEggSize: nat := 735

  /** The name an egg is sorted by. `a.localeCompare(b)` reads a `null` or
      missing `b` as the strings "null" and "undefined"; when such a name is
      `a` instead, the sort throws, which `Merging.SortEngine` models. */
  function NameKey(e: Egg): string {
    match e.name
    case Text(text) => text
    case Null => "null"
    case Absent => "undefined"
  }

  const RawGithubPrefix: string := "https://raw.githubusercontent.com/"

  /** `https://raw.githubusercontent.com/${repository}/${branch}/${pathEgg}`. */
  function BuildRawGithubUrl(repository: string, branch: string, pathEgg: string): string {
    RawGithubPrefix + repository + "/" + branch + "/" + pathEgg
  }

  /** The text before and after the first `c`. */
  function SplitFirst(s: string, c: char): (r: (string, string))
    requires c in s
    ensures s == r.0 + [c] + r.1 && c !in r.0
  {
    var i := FirstIndexOfChar(s, c);
    assert s == s[..i] + [c] + s[i + 1..];
    (s[..i], s[i + 1..])
  }

  lemma SplitFirstOf(x: string, c: char, y: string)
    requires c !in x
    ensures c in x + [c] + y
    ensures SplitFirst(x + [c] + y, c) == (x, y)
  {
    var s := x + [c] + y;
    assert s[|x|] == c;
    var r := SplitFirst(s, c);
    assert s == r.0 + [c] + r.1;
    assert r.0 == s[..|x|] == x;
    assert r.1 == s[|x| + 1..] == y;
  }

  /** A raw link read back as author, repository name, branch and path. */
  datatype RawLink = RawLink(author: string, repoName: string, branch: string, pathEgg: string)

  function ParseRawGithubUrl(url: string): Option<RawLink> {
    if !StartsWith(url, RawGithubPrefix) then None
    else
      var rest := url[|RawGithubPrefix|..];
      if '/' !in rest then None
      else
        var (author, rest1) := SplitFirst(rest, '/');
        if '/' !in rest1 then None
        else
          var (repoName, rest2) := SplitFirst(rest1, '/');
          if '/' !in rest2 then None
          else
            var (branch, pathEgg) := SplitFirst(rest2, '/');
            Some(RawLink(author, repoName, branch, pathEgg))
  }

  /** The link determines its parts: for a repository `author/name` and a
      branch without `/`, reading the link back gives them all, and the egg's
      relative path. */
  lemma {:induction false} RawGithubUrlRoundTrip(author: string, repoName: string, branch: string, pathEgg: string)
    requires '/' !in author && '/' !in repoName && '/' !in branch
    ensures ParseRawGithubUrl(BuildRawGithubUrl(author + "/" + repoName, branch, pathEgg))
      == Some(RawLink(author, repoName, branch, pathEgg))
  {
    var url := BuildRawGithubUrl(author + "/" + repoName, branch, pathEgg);
    var rest2 := branch + "/" + pathEgg;
    var rest1 := repoName + "/" + rest2;
    var rest := author + "/" + rest1;
    assert url == RawGithubPrefix + rest;
    assert url[..|RawGithubPrefix|] == RawGithubPrefix;
    assert url[|RawGithubPrefix|..] == rest;
    SplitFirstOf(author, '/', rest1);
    SplitFirstOf(repoName, '/', rest2);
    SplitFirstOf(branch, '/', pathEgg);
  }

  /** One language of a `cld.detect` answer. */
  datatype CldLanguage = CldLanguage(code: string, percent: int)

  /** Position `i` holds the highest percentage, and no earlier position
      does. */
  predicate IsFirstMax(langs: seq<CldLanguage>, i: int) {
    && 0 <= i < |langs|
    && (forall j :: 0 <= j < |langs| ==> langs[j].percent <= langs[i].percent)
    && (forall j :: 0 <= j < i ==> langs[j].percent < langs[i].percent)
  }

  /** `languages.reduce((max, l) => l.percent > max.percent ? l : max).code`:
      the first language of highest percentage; a reduce of an empty list
      throws (`None`). */
  function MaxByPercent(langs: seq<CldLanguage>): (r: Option<string>)
    ensures r.None? <==> langs == []
    ensures r.Some? ==> exists i :: IsFirstMax(langs, i) && langs[i].code == r.value
  {
    if langs == [] then None
    else
      var i := MaxIndex(langs, 0, 1);
      assert IsFirstMax(langs, i);
      Some(langs[i].code)
  }

  /** The reduce from position `k` on, with the best so far at `best`. */
  function MaxIndex(langs: seq<CldLanguage>, best: nat, k: nat): (i: nat)
    requires best < k <= |langs|
    requires forall j :: 0 <= j < k ==> langs[j].percent <= langs[best].percent
    requires forall j :: 0 <= j < best ==> langs[j].percent < langs[best].percent
    ensures i < |langs|
    ensures forall j :: 0 <= j < |langs| ==> langs[j].percent <= langs[i].percent
    ensures forall j :: 0 <= j < i ==> langs[j].percent < langs[i].percent
    decreases |langs| - k
  {
    if k == |langs| then best
    else if langs[k].percent > langs[best].percent then MaxIndex(langs, k, k + 1)
    else MaxIndex(langs, best, k + 1)
  }

  /** Ties go to the earlier language. */
  lemma MaxByPercentTie()
    ensures MaxByPercent([CldLanguage("pt", 50), CldLanguage("en", 50)]) == Some("pt")
  {
    var langs := [CldLanguage("pt", 50), CldLanguage("en", 50)];
    assert MaxIndex(langs, 0, 1) == 0;
  }
}
