/** `Merge`: the per-author store of egg lists by repository name, kept in
    the static `Merge.metadata` map across instances. `read` overlays the
    on-disk cache, the lists already in memory and the current repository's
    list; `write` flattens the author's lists and sorts them by name. The
    cache file is an input (`None` when it does not exist) and the written
    files are the result of `Write`. */
module Merging {
  import opened Wrappers
  import opened Eggs
  import opened Sorting

  /** A property of a plain object: a repository name and its eggs. */
  type Entry = (string, seq<Egg>)

  predicate UniqueKeys(s: seq<Entry>) {
    forall i, j :: 0 <= i < j < |s| ==> s[i].0 != s[j].0
  }

  /** A plain object `{ [repoName]: Egg[] }`: its properties in insertion
      order, each name once. */
  type Store = s: seq<Entry> | UniqueKeys(s) witness []

  /** The position of a property. */
  function IndexOfKey(s: seq<Entry>, k: string): (r: Option<nat>)
    ensures r.Some? ==> r.value < |s| && s[r.value].0 == k
    ensures r.None? ==> forall i :: 0 <= i < |s| ==> s[i].0 != k
  {
    if s == [] then None
    else if s[0].0 == k then Some(0)
    else
      match IndexOfKey(s[1..], k)
      case None => None
      case Some(i) => Some(i + 1)
  }

  /** `obj[k]`: `None` is `undefined`. */
  function Get(s: Store, k: string): Option<seq<Egg>> {
    match IndexOfKey(s, k)
    case Some(i) => Some(s[i].1)
    case None => None
  }

  /** `obj[k] = v`: an existing property keeps its place, a new one goes
      last. */
  function Put(s: Store, k: string, v: seq<Egg>): (r: Store)
    ensures |r| == |s| || |r| == |s| + 1
    ensures forall i :: 0 <= i < |s| ==> r[i].0 == s[i].0
  {
    match IndexOfKey(s, k)
    case Some(i) => s[i := (k, v)]
    case None => s + [(k, v)]
  }

  /** In an object a name sits in one place only. */
  lemma IndexUnique(s: Store, k: string, i: nat)
    requires i < |s| && s[i].0 == k
    ensures IndexOfKey(s, k) == Some(i)
  {
  }

  /** Writing a property sets that one and no other. */
  lemma PutGet(s: Store, k: string, v: seq<Egg>, k': string)
    ensures Get(Put(s, k, v), k') == if k' == k then Some(v) else Get(s, k')
  {
    var r := Put(s, k, v);
    var p := if IndexOfKey(s, k).Some? then IndexOfKey(s, k).value else |s|;
    assert p < |r| && r[p] == (k, v);
    assert forall i :: 0 <= i < |r| && i != p ==> i < |s| && r[i] == s[i];
    if k' == k {
      IndexUnique(r, k, p);
    } else if IndexOfKey(s, k').Some? {
      var j := IndexOfKey(s, k').value;
      IndexUnique(r, k', j);
    } else {
      assert forall i :: 0 <= i < |r| ==> r[i].0 != k';
    }
  }

  /** Looking a name up in an object: the last property, or an earlier
      one. */
  lemma GetLast(s: Store, k: string)
    requires s != []
    ensures Get(s, k) == if k == s[|s| - 1].0 then Some(s[|s| - 1].1) else Get(s[..|s| - 1], k)
  {
    var n := |s| - 1;
    var init: Store := s[..n];
    if k == s[n].0 {
      IndexUnique(s, k, n);
    } else if IndexOfKey(init, k).Some? {
      var j := IndexOfKey(init, k).value;
      assert s[j] == init[j];
      IndexUnique(s, k, j);
    } else {
      forall i | 0 <= i < |s| ensures s[i].0 != k {
        if i < n {
          assert s[i] == init[i];
        }
      }
    }
  }

  /** `Object.assign(target, source)`: the source's properties are written
      into the target in the source's order. */
  function Assign(target: Store, source: Store): Store
    decreases |source|
  {
    if source == [] then target
    else
      var last := source[|source| - 1];
      Put(Assign(target, source[..|source| - 1]), last.0, last.1)
  }

  /** After `Object.assign`, a name has the source's list when the source
      has one, and the target's otherwise; the target's names keep their
      places at the front. */
  lemma {:induction false} AssignGet(target: Store, source: Store)
    ensures forall k :: Get(Assign(target, source), k) ==
                        (if Get(source, k).Some? then Get(source, k) else Get(target, k))
    ensures |Assign(target, source)| >= |target|
    ensures forall i :: 0 <= i < |target| ==> Assign(target, source)[i].0 == target[i].0
    decreases |source|
  {
    if source != [] {
      var init: Store := source[..|source| - 1];
      var last := source[|source| - 1];
      AssignGet(target, init);
      forall k ensures Get(Assign(target, source), k) ==
        if Get(source, k).Some? then Get(source, k) else Get(target, k)
      {
        PutGet(Assign(target, init), last.0, last.1, k);
        GetLast(source, k);
      }
    }
  }

  /** The overlay `read` stores: the cache (or `{}`), then the lists in
      memory (skipped when there are none), then `{ [repoName]: data }`. */
  function Overlay(cache: Option<Store>, inMemory: Option<Store>, repoName: string, data: seq<Egg>): Store {
    var base := cache.GetOr([]);
    var withMemory := if inMemory.Some? then Assign(base, inMemory.value) else base;
    Assign(withMemory, [(repoName, data)])
  }

  /** The current repository gets exactly its data; another name gets the
      in-memory list when there is one and the cached list otherwise; and
      no name is lost. */
  lemma OverlayPriority(cache: Option<Store>, inMemory: Option<Store>, repoName: string, data: seq<Egg>)
    ensures var r := Overlay(cache, inMemory, repoName, data);
      && Get(r, repoName) == Some(data)
      && (forall k :: k != repoName ==>
            Get(r, k) == if inMemory.Some? && Get(inMemory.value, k).Some? then Get(inMemory.value, k)
                         else Get(cache.GetOr([]), k))
      && (forall k :: Get(r, k).Some? <==>
            k == repoName || (inMemory.Some? && Get(inMemory.value, k).Some?) || Get(cache.GetOr([]), k).Some?)
  {
    var base := cache.GetOr([]);
    var withMemory := if inMemory.Some? then Assign(base, inMemory.value) else base;
    MemoryOverCache(base, inMemory, withMemory);
    AssignGet(withMemory, [(repoName, data)]);
    SingleEntryGet(repoName, data);
  }

  lemma MemoryOverCache(base: Store, inMemory: Option<Store>, withMemory: Store)
    requires withMemory == if inMemory.Some? then Assign(base, inMemory.value) else base
    ensures forall k :: Get(withMemory, k) ==
                        (if inMemory.Some? && Get(inMemory.value, k).Some? then Get(inMemory.value, k) else Get(base, k))
  {
    if inMemory.Some? {
      AssignGet(base, inMemory.value);
    }
  }

  lemma SingleEntryGet(key: string, data: seq<Egg>)
    ensures forall k :: Get([(key, data)], k) == (if k == key then Some(data) else None)
  {
    forall k ensures Get([(key, data)], k) == if k == key then Some(data) else None {
      if k != key {
        assert IndexOfKey([(key, data)], k).None?;
      }
    }
  }

  /** With no cache file and nothing in memory the author's object holds
      only the current repository. */
  lemma FirstReadHoldsOnlyCurrent(repoName: string, data: seq<Egg>)
    ensures Overlay(None, None, repoName, data) == [(repoName, data)]
  {
    assert Assign([], [(repoName, data)]) == Put([], repoName, data);
  }

  /** `merged.push(...data[key])` over the keys in order. */
  function Flatten(s: seq<Entry>): seq<Egg>
    decreases |s|
  {
    if s == [] then [] else Flatten(s[..|s| - 1]) + s[|s| - 1].1
  }

  function SumOfLengths(s: seq<Entry>): nat
    decreases |s|
  {
    if s == [] then 0 else SumOfLengths(s[..|s| - 1]) + |s[|s| - 1].1|
  }

  /** The flattened list holds every egg of every repository, as often as
      the lists hold it together. */
  lemma {:induction false} FlattenKeepsAll(s: seq<Entry>)
    ensures |Flatten(s)| == SumOfLengths(s)
    ensures forall i, e :: 0 <= i < |s| && e in s[i].1 ==> e in Flatten(s)
    ensures forall e :: e in Flatten(s) ==> exists i :: 0 <= i < |s| && e in s[i].1
    decreases |s|
  {
    if s != [] {
      var init := s[..|s| - 1];
      FlattenKeepsAll(init);
      forall i, e | 0 <= i < |s| && e in s[i].1 ensures e in Flatten(s) {
        if i < |init| {
          assert init[i] == s[i];
        }
      }
      forall e | e in Flatten(s) ensures exists i :: 0 <= i < |s| && e in s[i].1 {
        if e in Flatten(init) {
          var i :| 0 <= i < |init| && e in init[i].1;
          assert init[i] == s[i];
        }
      }
    }
  }

  /** What `write` produces: the sorted list (`api/<author>.json` and
      `.min.json`) and the object itself (`api/<author>.cache.json`). */
  datatype Artifacts = Artifacts(merged: seq<Egg>, cache: Store)

  /** How `write` ends: with nothing to write, with the `TypeError` the
      sort raises, or with the files written. */
  datatype WriteOutcome = NoObject | SortFailed | Wrote(artifacts: Artifacts)

  /** The comparator of `write`'s sort calls `localeCompare` on its first
      egg's name, which throws when that name is not a string: `null` in a
      config, or missing in a cache file. Which pairs the engine compares,
      and in which order, is the engine's own choice, so whether the sort of
      a list throws is an input `throws` of the model. Any engine obeys
      `SortEngine`: a list shorter than two is never compared, and a list
      whose names are all strings never throws. */
  ghost predicate SortEngine(throws: seq<Egg> -> bool) {
    forall l: seq<Egg> :: throws(l) ==> 2 <= |l| && exists i :: 0 <= i < |l| && !l[i].name.Text?
  }

  /** Under any engine, a sort can only fail on a list of two or more eggs
      holding a name that is not a string. */
  lemma SortFailsOnlyOnNameless(throws: seq<Egg> -> bool, l: seq<Egg>)
    requires SortEngine(throws)
    ensures (|l| < 2 || forall i :: 0 <= i < |l| ==> l[i].name.Text?) ==> !throws(l)
  {
  }

  /** The static `Merge.metadata`. */
  class Metadata {
    var byAuthor: map<string, Store>

    constructor()
      ensures byAuthor == map[]
    {
      byAuthor := map[];
    }
  }

  class Merge {
    const author: string
    const repoName: string
    const data: seq<Egg>

    constructor(author: string, data: seq<Egg>, repoName: string)
      ensures this.author == author && this.data == data && this.repoName == repoName
    {
      this.author := author;
      this.data := data;
      this.repoName := repoName;
    }

    /** `read()`: only this author's object changes. */
    method Read(metadata: Metadata, cache: Option<Store>)
      modifies metadata
      ensures metadata.byAuthor == old(metadata.byAuthor)[author :=
        Overlay(cache, if author in old(metadata.byAuthor) then Some(old(metadata.byAuthor)[author]) else None,
                repoName, data)]
    {
      var current := if author in metadata.byAuthor then Some(metadata.byAuthor[author]) else None;
      var base: Store := if cache.Some? then cache.value else [];
      var merged := base;
      if current.Some? {
        merged := Assign(merged, current.value);
      }
      merged := Assign(merged, [(repoName, data)]);
      metadata.byAuthor := metadata.byAuthor[author := merged];
    }

    /** `write()`: nothing for an author without an object; otherwise the
        lists in key order, sorted by name (`localeCompare` is `le`), and
        the object unchanged, unless the sort throws (`throws`), in which
        case no file is written. */
    method Write(metadata: Metadata, le: (string, string) -> bool, throws: seq<Egg> -> bool)
      returns (out: WriteOutcome)
      ensures author !in metadata.byAuthor ==> out == NoObject
      ensures author in metadata.byAuthor ==>
        out == if throws(Flatten(metadata.byAuthor[author])) then SortFailed
               else Wrote(Artifacts(SortBy(NameKey, le, Flatten(metadata.byAuthor[author])), metadata.byAuthor[author]))
    {
      if author !in metadata.byAuthor {
        return NoObject;
      }
      var data := metadata.byAuthor[author];
      var merged: seq<Egg> := [];
      for i := 0 to |data|
        invariant merged == Flatten(data[..i])
      {
        assert data[..i + 1][..i] == data[..i];
        merged := merged + data[i].1;
      }
      assert data[..|data|] == data;
      if throws(merged) {
        return SortFailed;
      }
      merged := SortBy(NameKey, le, merged);
      out := Wrote(Artifacts(merged, data));
    }
  }

  /** The list a write that does not throw returns (`Wrote`) is sorted by
      name, holds every egg of every repository of the author and nothing
      else, and is as long as all the lists together. */
  lemma WrittenListKeepsAll(s: Store, le: (string, string) -> bool)
    requires TotalPreorder(le)
    ensures var merged := SortBy(NameKey, le, Flatten(s));
      && SortedBy(NameKey, le, merged)
      && multiset(merged) == multiset(Flatten(s))
      && |merged| == SumOfLengths(s)
      && (forall k, e :: Get(s, k).Some? && e in Get(s, k).value ==> e in merged)
      && (forall e :: e in merged ==> exists k :: Get(s, k).Some? && e in Get(s, k).value)
  {
    var merged := SortBy(NameKey, le, Flatten(s));
    SortByIsSorted(NameKey, le, Flatten(s));
    FlattenKeepsAll(s);
    assert |merged| == |multiset(merged)| == |multiset(Flatten(s))| == |Flatten(s)|;
    forall e ensures e in merged <==> e in Flatten(s) {
      assert e in merged <==> e in multiset(merged);
      assert e in Flatten(s) <==> e in multiset(Flatten(s));
    }
    forall k, e | Get(s, k).Some? && e in Get(s, k).value ensures e in merged {
      var i := IndexOfKey(s, k).value;
      assert e in s[i].1;
    }
    forall e | e in merged ensures exists k :: Get(s, k).Some? && e in Get(s, k).value {
      var i :| 0 <= i < |s| && e in s[i].1;
      var k := s[i].0;
      var j := IndexOfKey(s, k).value;
      assert j == i;
      assert Get(s, k) == Some(s[i].1);
    }
  }
}
