/** `ProviderRegistry`: the ordered list of providers. Registration order is
    fixed by the constructor, `addProvider` appends, lookups are `find`
    (first match, `undefined` on a miss) and `filter`, and the unique authors
    are collected through a `Set`, which keeps first-insertion order. */
module ProviderRegistration {
  import opened Wrappers
  import opened Providers

  /** `providers.find(p => p.matches(authorRepo))`. */
  function FindProvider(ps: seq<Provider>, authorRepo: string): (r: Option<Provider>)
    ensures r.None? <==> forall i :: 0 <= i < |ps| ==> !Matches(ps[i], authorRepo)
    ensures r.Some? ==> exists i :: 0 <= i < |ps| && ps[i] == r.value && Matches(ps[i], authorRepo)
                                    && forall j :: 0 <= j < i ==> !Matches(ps[j], authorRepo)
  {
    if ps == [] then None
    else if Matches(ps[0], authorRepo) then Some(ps[0])
    else
      var r := FindProvider(ps[1..], authorRepo);
      assert forall i :: 1 <= i < |ps| ==> ps[i] == ps[1..][i - 1];
      r
  }

  /** `providers.filter(p => p.getAuthor() === author)`. */
  function ProvidersByAuthor(ps: seq<Provider>, author: string): (r: seq<Provider>)
    ensures |r| <= |ps|
    ensures forall q :: q in r <==> q in ps && GetAuthor(q) == author
  {
    if ps == [] then []
    else
      var rest := ProvidersByAuthor(ps[1..], author);
      assert forall q :: q in ps <==> q == ps[0] || q in ps[1..];
      if GetAuthor(ps[0]) == author then [ps[0]] + rest else rest
  }

  /** The authors of the providers, one per provider, in order. */
  function AuthorsOf(ps: seq<Provider>): (r: seq<string>)
    ensures |r| == |ps|
    ensures forall i :: 0 <= i < |ps| ==> r[i] == GetAuthor(ps[i])
  {
    seq(|ps|, i requires 0 <= i < |ps| => GetAuthor(ps[i]))
  }

  /** The contents of a `Set` filled with `add` in sequence order, listed by
      `Array.from`: each value once, at its first insertion. */
  function Dedup(s: seq<string>): seq<string>
    decreases |s|
  {
    if s == [] then []
    else
      var d := Dedup(s[..|s| - 1]);
      if s[|s| - 1] in d then d else d + [s[|s| - 1]]
  }

  predicate NoDuplicates(s: seq<string>) {
    forall i, j :: 0 <= i < j < |s| ==> s[i] != s[j]
  }

  /** The position of the first occurrence of `x`, a string that occurs in
      `s`; the order `Dedup` keeps is the order of these positions. */
  function FirstOccurrence(s: seq<string>, x: string): (r: nat)
    requires x in s
    ensures r < |s| && s[r] == x && x !in s[..r]
  {
    if s[0] == x then 0
    else
      var k := FirstOccurrence(s[1..], x);
      assert s[..k + 1] == [s[0]] + s[1..][..k];
      k + 1
  }

  /** The list the constructor registers: the nine pelican-eggs repositories,
      then Ashu11-A/Ashu_eggs, then nine generic repositories, one `push`
      each. */
  function DefaultProviders(): seq<Provider> {
    PelicanEggsRepositories() + [Ashu11AProvider()] + GenericRepositories()
  }

  function PelicanEggsRepositories(): seq<Provider> {
    [ PelicanEggsProvider("chatbots", None),
      PelicanEggsProvider("database", None),
      PelicanEggsProvider("games-standalone", None),
      PelicanEggsProvider("games-steamcmd", None),
      PelicanEggsProvider("generic", None),
      PelicanEggsProvider("minecraft", None),
      PelicanEggsProvider("monitoring", None),
      PelicanEggsProvider("software", None),
      PelicanEggsProvider("voice", None) ]
  }

  function GenericRepositories(): seq<Provider> {
    [ DefaultProvider("DanBot-Hosting/pterodactyl-eggs", None, None),
      DefaultProvider("Draakoor/codptero", None, None),
      DefaultProvider("drylian/Eggs", None, None),
      DefaultProvider("GeyserMC/pterodactyl-stuff", Some("master"), None),
      DefaultProvider("gOOvER/own-pterodactyl-eggs", None, None),
      DefaultProvider("kry008/pterodactyl-io-ARM-eggs", None, None),
      DefaultProvider("QuintenQVD0/Q_eggs", None, None),
      DefaultProvider("Sigma-Production/ptero-eggs", None, None),
      DefaultProvider("ysdragon/Pterodactyl-VPS-Egg", None, None) ]
  }

  class ProviderRegistry {
    var providers: seq<Provider>

    constructor()
      ensures providers == DefaultProviders()
    {
      providers := DefaultProviders();
    }

    /** `addProvider`: `push`, so the new provider is tried last. */
    method AddProvider(provider: Provider)
      modifies this
      ensures providers == old(providers) + [provider]
    {
      providers := providers + [provider];
    }

    function GetAllProviders(): seq<Provider>
      reads this
    {
      providers
    }

    function GetProvidersByAuthor(author: string): seq<Provider>
      reads this
    {
      ProvidersByAuthor(providers, author)
    }

    function GetProviderForRepo(authorRepo: string): Option<Provider>
      reads this
    {
      FindProvider(providers, authorRepo)
    }

    /** `getUniqueAuthors`: `forEach` adds each author to a `Set`. */
    method GetUniqueAuthors() returns (authors: seq<string>)
      ensures authors == Dedup(AuthorsOf(providers))
    {
      authors := [];
      var i := 0;
      while i < |providers|
        invariant 0 <= i <= |providers|
        invariant authors == Dedup(AuthorsOf(providers[..i]))
      {
        var a := GetAuthor(providers[i]);
        AuthorsOfSnoc(providers, i);
        DedupAppend(AuthorsOf(providers[..i]), a);
        if a !in authors {
          authors := authors + [a];
        }
        i := i + 1;
      }
      assert providers[..i] == providers;
    }
  }

  lemma AuthorsOfSnoc(ps: seq<Provider>, i: nat)
    requires i < |ps|
    ensures AuthorsOf(ps[..i + 1]) == AuthorsOf(ps[..i]) + [GetAuthor(ps[i])]
  {
  }

  /** `add` of one more author: it is listed last unless already listed. */
  lemma DedupAppend(init: seq<string>, last: string)
    ensures Dedup(init + [last]) == if last in Dedup(init) then Dedup(init) else Dedup(init) + [last]
  {
    assert (init + [last])[..|init|] == init;
  }

  /** The unique-author list has no repeated author. */
  lemma {:induction false} DedupNoDuplicates(s: seq<string>)
    ensures NoDuplicates(Dedup(s))
    decreases |s|
  {
    if s != [] {
      DedupNoDuplicates(s[..|s| - 1]);
    }
  }

  /** ... and lists exactly the authors that occur. */
  lemma {:induction false} DedupSameElements(s: seq<string>)
    ensures forall x :: x in Dedup(s) <==> x in s
    decreases |s|
  {
    if s != [] {
      var init := s[..|s| - 1];
      DedupSameElements(init);
      assert s == init + [s[|s| - 1]];
    }
  }

  /** ... in the order of their first occurrence. */
  lemma {:induction false} DedupFirstOccurrenceOrder(s: seq<string>)
    ensures forall k :: 0 <= k < |Dedup(s)| ==> Dedup(s)[k] in s
    ensures forall i, j :: 0 <= i < j < |Dedup(s)| ==> FirstOccurrence(s, Dedup(s)[i]) < FirstOccurrence(s, Dedup(s)[j])
    decreases |s|
  {
    if s != [] {
      var init := s[..|s| - 1];
      var last := s[|s| - 1];
      DedupFirstOccurrenceOrder(init);
      assert s == init + [last];
      DedupOrderStep(init, last);
    }
  }

  lemma DedupOrderStep(init: seq<string>, last: string)
    requires forall k :: 0 <= k < |Dedup(init)| ==> Dedup(init)[k] in init
    requires forall i, j :: 0 <= i < j < |Dedup(init)| ==> FirstOccurrence(init, Dedup(init)[i]) < FirstOccurrence(init, Dedup(init)[j])
    ensures forall k :: 0 <= k < |Dedup(init + [last])| ==> Dedup(init + [last])[k] in init + [last]
    ensures forall i, j :: 0 <= i < j < |Dedup(init + [last])| ==>
      FirstOccurrence(init + [last], Dedup(init + [last])[i]) < FirstOccurrence(init + [last], Dedup(init + [last])[j])
  {
    DedupAppend(init, last);
    DedupSameElements(init);
    SnocOrder(init, last, Dedup(init), Dedup(init + [last]));
  }

  /** Appending a new element after a list in first-occurrence order keeps
      that order; appending a known one changes no first occurrence. */
  lemma SnocOrder(init: seq<string>, last: string, d: seq<string>, r: seq<string>)
    requires forall k :: 0 <= k < |d| ==> d[k] in init
    requires last in d <==> last in init
    requires forall i, j :: 0 <= i < j < |d| ==> FirstOccurrence(init, d[i]) < FirstOccurrence(init, d[j])
    requires r == if last in d then d else d + [last]
    ensures forall k :: 0 <= k < |r| ==> r[k] in init + [last]
    ensures forall i, j :: 0 <= i < j < |r| ==> FirstOccurrence(init + [last], r[i]) < FirstOccurrence(init + [last], r[j])
  {
    SnocListed(init, last, d, r);
    forall i, j | 0 <= i < j < |r|
      ensures FirstOccurrence(init + [last], r[i]) < FirstOccurrence(init + [last], r[j])
    {
      assert r[i] == d[i];
      if j < |d| {
        assert r[j] == d[j];
        FirstOccurrenceOfPrefix(init, [last], d[i]);
        FirstOccurrenceOfPrefix(init, [last], d[j]);
      } else {
        assert r[j] == last;
        FirstOccurrenceOfNew(init, last, d[i]);
      }
    }
  }

  lemma SnocListed(init: seq<string>, last: string, d: seq<string>, r: seq<string>)
    requires forall k :: 0 <= k < |d| ==> d[k] in init
    requires r == if last in d then d else d + [last]
    ensures forall k :: 0 <= k < |r| ==> r[k] in init + [last]
  {
    var s := init + [last];
    forall k | 0 <= k < |r| ensures r[k] in s {
      if k < |d| {
        assert r[k] == d[k] && d[k] in init;
      } else {
        assert r[k] == last == s[|init|];
      }
    }
  }

  /** An element new to `init` occurs first after every element of it. */
  lemma FirstOccurrenceOfNew(init: seq<string>, last: string, x: string)
    requires x in init && last !in init
    ensures FirstOccurrence(init + [last], x) < FirstOccurrence(init + [last], last)
  {
    var s := init + [last];
    FirstOccurrenceOfPrefix(init, [last], x);
    assert s[|init|] == last;
  }

  lemma FirstOccurrenceOfPrefix(s: seq<string>, t: seq<string>, x: string)
    requires x in s
    ensures FirstOccurrence(s + t, x) == FirstOccurrence(s, x)
  {
    var k := FirstOccurrence(s, x);
    assert (s + t)[k] == x;
  }

  /** Appending a provider never changes an existing answer of
      `getProviderForRepo`; the new provider only answers former misses. */
  lemma {:induction false} AddedProviderHasLowestPriority(ps: seq<Provider>, p: Provider, authorRepo: string)
    ensures FindProvider(ps, authorRepo).Some? ==> FindProvider(ps + [p], authorRepo) == FindProvider(ps, authorRepo)
    ensures FindProvider(ps, authorRepo).None? ==>
      FindProvider(ps + [p], authorRepo) == (if Matches(p, authorRepo) then Some(p) else None)
    decreases |ps|
  {
    if ps != [] {
      assert (ps + [p])[1..] == ps[1..] + [p];
      AddedProviderHasLowestPriority(ps[1..], p, authorRepo);
    }
  }

  /** `getProvidersByAuthor` keeps registration order: filtering a
      concatenation concatenates the filtered parts. */
  lemma {:induction false} ProvidersByAuthorAppend(ps: seq<Provider>, qs: seq<Provider>, author: string)
    ensures ProvidersByAuthor(ps + qs, author) == ProvidersByAuthor(ps, author) + ProvidersByAuthor(qs, author)
    decreases |ps|
  {
    if ps == [] {
      assert ps + qs == qs;
    } else {
      assert (ps + qs)[1..] == ps[1..] + qs;
      ProvidersByAuthorAppend(ps[1..], qs, author);
    }
  }

  /** The constructor's registry: nineteen providers in three blocks, and
      `pelican-eggs` resolves to the first of them, `chatbots`. */
  lemma DefaultRegistry()
    ensures |DefaultProviders()| == 19
    ensures forall i :: 0 <= i < 9 ==> DefaultProviders()[i].kind == PelicanEggs
    ensures DefaultProviders()[9] == Ashu11AProvider()
    ensures forall i :: 10 <= i < 19 ==> DefaultProviders()[i].kind == Generic
    ensures DefaultProviders()[13].branch == "master"
    ensures FindProvider(DefaultProviders(), "pelican-eggs") == Some(PelicanEggsProvider("chatbots", None))
  {
    DefaultBlocks();
    PelicanEggsFindsChatbots();
  }

  lemma DefaultBlocks()
    ensures |DefaultProviders()| == 19
    ensures forall i :: 0 <= i < 9 ==> DefaultProviders()[i].kind == PelicanEggs
    ensures DefaultProviders()[9] == Ashu11AProvider()
    ensures forall i :: 10 <= i < 19 ==> DefaultProviders()[i].kind == Generic
    ensures DefaultProviders()[13].branch == "master"
  {
    var pe := PelicanEggsRepositories();
    var ge := GenericRepositories();
    PelicanBlock();
    GenericBlock();
    var ps := DefaultProviders();
    assert forall i :: 0 <= i < 9 ==> ps[i] == pe[i];
    assert forall i :: 10 <= i < 19 ==> ps[i] == ge[i - 10];
  }

  lemma PelicanBlock()
    ensures |PelicanEggsRepositories()| == 9
    ensures forall i :: 0 <= i < 9 ==> PelicanEggsRepositories()[i].kind == PelicanEggs
  {
  }

  lemma GenericBlock()
    ensures |GenericRepositories()| == 9
    ensures forall i :: 0 <= i < 9 ==> GenericRepositories()[i].kind == Generic
    ensures GenericRepositories()[3].branch == "master"
  {
  }

  lemma PelicanEggsFindsChatbots()
    ensures FindProvider(DefaultProviders(), "pelican-eggs") == Some(PelicanEggsProvider("chatbots", None))
  {
    var ps := DefaultProviders();
    assert ps[0] == PelicanEggsProvider("chatbots", None);
    assert Matches(ps[0], "pelican-eggs");
  }
}
