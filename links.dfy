/** The rows of `api/links.json`, one per author, and the two decisions
    both orchestrators make with them: whether a repository is unchanged
    since its author's row was written, and how the rows of a run are folded
    into the cached ones. */
module Links {
  import opened Wrappers
  import opened Eggs
  import opened Sequences

  /** `LinkData`. */
  datatype LinkData = LinkData(author: string, link: string, eggs: nat, pushedAt: string)

  const ArtifactPrefix: string := "https://raw.githubusercontent.com/Ashu11-A/Eggs-Tracker/main/api/"

  /** The row written after an author's artifact was merged: the artifact's
      URL and its number of eggs. */
  function LinkFor(author: string, merged: seq<Egg>, pushedAt: string): (l: LinkData)
    ensures l.author == author && l.eggs == |merged| && l.pushedAt == pushedAt
    ensures l.link == ArtifactPrefix + author + ".min.json"
  {
    LinkData(author, ArtifactPrefix + author + ".min.json", |merged|, pushedAt)
  }

  /** A row's link names its author: two rows share a link exactly when
      they belong to the same author. */
  lemma LinkIdentifiesAuthor(a: string, b: string, m: seq<Egg>, n: seq<Egg>, p: string, q: string)
    ensures LinkFor(a, m, p).link == LinkFor(b, n, q).link <==> a == b
  {
    var x := LinkFor(a, m, p).link;
    var y := LinkFor(b, n, q).link;
    if x == y {
      assert |a| == |b|;
      assert x[|ArtifactPrefix|..|ArtifactPrefix| + |a|] == a;
      assert y[|ArtifactPrefix|..|ArtifactPrefix| + |b|] == b;
    }
  }

  /** `findIndex`/`find` by author. */
  function FindByAuthor(rows: seq<LinkData>, author: string): (r: Option<nat>)
    ensures r.Some? ==> r.value < |rows| && rows[r.value].author == author
    ensures r.Some? ==> forall j :: 0 <= j < r.value ==> rows[j].author != author
    ensures r.None? ==> forall j :: 0 <= j < |rows| ==> rows[j].author != author
  {
    FirstIndex(rows, (l: LinkData) => l.author == author)
  }

  /** A repository is skipped when its `pushed_at` (`None` when the request
      fails) is that of its author's first cached row. */
  predicate ShouldSkip(cache: seq<LinkData>, remote: Option<string>, author: string) {
    remote.Some? && FindByAuthor(cache, author).Some? && cache[FindByAuthor(cache, author).value].pushedAt == remote.value
  }

  /** Skipping needs both a cached row and an answer; then it is exactly
      the equality of the two dates. */
  lemma ShouldSkipExactly(cache: seq<LinkData>, remote: Option<string>, author: string)
    ensures FindByAuthor(cache, author).None? ==> !ShouldSkip(cache, remote, author)
    ensures remote.None? ==> !ShouldSkip(cache, remote, author)
    ensures forall i :: 0 <= i < |cache| && cache[i].author == author
                        && (forall j :: 0 <= j < i ==> cache[j].author != author)
                        ==> (ShouldSkip(cache, remote, author) <==> remote == Some(cache[i].pushedAt))
  {
  }

  /** One step of the fold: the first row of the link's author is
      replaced, or the link is appended. */
  function UpsertLink(rows: seq<LinkData>, link: LinkData): seq<LinkData> {
    match FindByAuthor(rows, link.author)
    case Some(i) => rows[i := link]
    case None => rows + [link]
  }

  /** The rows after the loop over the run's links. */
  function UpsertAll(rows: seq<LinkData>, links: seq<LinkData>): seq<LinkData>
    decreases |links|
  {
    if links == [] then rows else UpsertLink(UpsertAll(rows, links[..|links| - 1]), links[|links| - 1])
  }

  function AuthorsOf(rows: seq<LinkData>): set<string> {
    set i | 0 <= i < |rows| :: rows[i].author
  }

  predicate UniqueAuthors(rows: seq<LinkData>) {
    forall i, j :: 0 <= i < j < |rows| ==> rows[i].author != rows[j].author
  }

  /** No later link has the same author. */
  predicate LastOfAuthor(links: seq<LinkData>, k: nat)
    requires k < |links|
  {
    forall k' :: k < k' < |links| ==> links[k'].author != links[k].author
  }

  /** One step keeps the rows' places and authors, adds the link's
      author, leaves other authors' rows alone and keeps one row per
      author. */
  lemma UpsertLinkShape(rows: seq<LinkData>, link: LinkData)
    ensures |rows| <= |UpsertLink(rows, link)| <= |rows| + 1
    ensures forall i :: 0 <= i < |rows| ==> UpsertLink(rows, link)[i].author == rows[i].author
    ensures AuthorsOf(UpsertLink(rows, link)) == AuthorsOf(rows) + {link.author}
    ensures forall i :: 0 <= i < |rows| && rows[i].author != link.author ==> UpsertLink(rows, link)[i] == rows[i]
    ensures UniqueAuthors(rows) ==> UniqueAuthors(UpsertLink(rows, link))
  {
    var r := UpsertLink(rows, link);
    var p := if FindByAuthor(rows, link.author).Some? then FindByAuthor(rows, link.author).value else |rows|;
    assert p < |r| && r[p] == link;
    assert forall i :: 0 <= i < |r| && i != p ==> i < |rows| && r[i] == rows[i];
    AuthorsOfUpsert(rows, link, r, p);
  }

  /** After one step the link's author is found at the link, and every
      other author is found where it was, with its row. */
  lemma UpsertLinkFind(rows: seq<LinkData>, link: LinkData, a: string)
    ensures FindByAuthor(UpsertLink(rows, link), link.author).Some?
    ensures UpsertLink(rows, link)[FindByAuthor(UpsertLink(rows, link), link.author).value] == link
    ensures a != link.author ==> FindByAuthor(UpsertLink(rows, link), a) == FindByAuthor(rows, a)
  {
    var r := UpsertLink(rows, link);
    var p := UpsertLinkAt(rows, link);
    FoundAt(r, link.author, p);
    if a != link.author {
      FindElsewhere(rows, r, p, a);
    }
  }

  /** Where `UpsertLink` puts the link, and that it keeps every other row. */
  lemma UpsertLinkAt(rows: seq<LinkData>, link: LinkData) returns (p: nat)
    ensures p <= |rows| && p < |UpsertLink(rows, link)| && UpsertLink(rows, link)[p] == link
    ensures |rows| <= |UpsertLink(rows, link)|
    ensures p < |rows| ==> rows[p].author == link.author
    ensures forall i :: 0 <= i < |UpsertLink(rows, link)| && i != p ==> i < |rows| && UpsertLink(rows, link)[i] == rows[i]
    ensures forall j :: 0 <= j < p ==> UpsertLink(rows, link)[j].author != link.author
  {
    p := if FindByAuthor(rows, link.author).Some? then FindByAuthor(rows, link.author).value else |rows|;
  }

  /** The first row of an author is where `FindByAuthor` finds it. */
  lemma FoundAt(rows: seq<LinkData>, a: string, p: nat)
    requires p < |rows| && rows[p].author == a
    requires forall j :: 0 <= j < p ==> rows[j].author != a
    ensures FindByAuthor(rows, a) == Some(p)
  {
  }

  /** Changing the rows only at a place whose author is not `a` (old or new)
      leaves the search for `a` alone. */
  lemma FindElsewhere(rows: seq<LinkData>, r: seq<LinkData>, p: nat, a: string)
    requires p <= |rows| && p < |r| && |rows| <= |r| && r[p].author != a
    requires p < |rows| ==> rows[p].author != a
    requires forall i :: 0 <= i < |r| && i != p ==> i < |rows| && r[i] == rows[i]
    ensures FindByAuthor(r, a) == FindByAuthor(rows, a)
  {
    var fs := FindByAuthor(rows, a);
    if fs.Some? {
      var q := fs.value;
      assert q != p && q < |r| && r[q] == rows[q];
      forall j | 0 <= j < q ensures r[j].author != a {
        assert j != p ==> r[j] == rows[j];
      }
      FoundAt(r, a, q);
    } else {
      forall j | 0 <= j < |r| ensures r[j].author != a {
        assert j != p ==> r[j] == rows[j];
      }
    }
  }

  lemma AuthorsOfUpsert(rows: seq<LinkData>, link: LinkData, r: seq<LinkData>, p: nat)
    requires p <= |rows| && p < |r| && r[p] == link
    requires p < |rows| ==> rows[p].author == link.author && |r| == |rows|
    requires p == |rows| ==> |r| == |rows| + 1
    requires forall i :: 0 <= i < |r| && i != p ==> i < |rows| && r[i] == rows[i]
    ensures AuthorsOf(r) == AuthorsOf(rows) + {link.author}
  {
    forall a | a in AuthorsOf(rows) ensures a in AuthorsOf(r) {
      var i :| 0 <= i < |rows| && rows[i].author == a;
      assert r[i].author == a;
    }
  }

  lemma AuthorsOfSnoc(links: seq<LinkData>)
    requires links != []
    ensures AuthorsOf(links) == AuthorsOf(links[..|links| - 1]) + {links[|links| - 1].author}
  {
    var init := links[..|links| - 1];
    forall a | a in AuthorsOf(links) ensures a in AuthorsOf(init) + {links[|links| - 1].author} {
      var k :| 0 <= k < |links| && links[k].author == a;
      if k < |init| { assert init[k] == links[k]; }
    }
    forall a | a in AuthorsOf(init) ensures a in AuthorsOf(links) {
      var k :| 0 <= k < |init| && init[k].author == a;
      assert links[k] == init[k];
    }
  }

  /** The fold keeps the cached rows' places and authors, and a row whose
      author has no link is kept whole. */
  lemma {:induction false} UpsertAllKeepsRows(rows: seq<LinkData>, links: seq<LinkData>)
    ensures |rows| <= |UpsertAll(rows, links)| <= |rows| + |links|
    ensures forall i :: 0 <= i < |rows| ==> UpsertAll(rows, links)[i].author == rows[i].author
    ensures forall i :: 0 <= i < |rows| && (forall k :: 0 <= k < |links| ==> links[k].author != rows[i].author)
                        ==> UpsertAll(rows, links)[i] == rows[i]
    decreases |links|
  {
    if links != [] {
      var init := links[..|links| - 1];
      var e := links[|links| - 1];
      UpsertAllKeepsRows(rows, init);
      var r' := UpsertAll(rows, init);
      UpsertLinkShape(r', e);
      forall i | 0 <= i < |rows| && (forall k :: 0 <= k < |links| ==> links[k].author != rows[i].author)
        ensures UpsertAll(rows, links)[i] == rows[i]
      {
        forall k | 0 <= k < |init| ensures init[k].author != rows[i].author {
          assert init[k] == links[k];
        }
      }
    }
  }

  /** After the fold the authors are the cached ones and the run's, and a
      cache with one row per author gives rows with one per author. */
  lemma {:induction false} UpsertAllAuthors(rows: seq<LinkData>, links: seq<LinkData>)
    ensures AuthorsOf(UpsertAll(rows, links)) == AuthorsOf(rows) + AuthorsOf(links)
    ensures UniqueAuthors(rows) ==> UniqueAuthors(UpsertAll(rows, links))
    decreases |links|
  {
    if links != [] {
      UpsertAllAuthors(rows, links[..|links| - 1]);
      UpsertLinkShape(UpsertAll(rows, links[..|links| - 1]), links[|links| - 1]);
      AuthorsOfSnoc(links);
    }
  }

  /** The last link of each author is what the author's first row holds
      after the fold. */
  lemma {:induction false} UpsertAllLastWins(rows: seq<LinkData>, links: seq<LinkData>, k: nat)
    requires k < |links| && LastOfAuthor(links, k)
    ensures FindByAuthor(UpsertAll(rows, links), links[k].author).Some?
    ensures UpsertAll(rows, links)[FindByAuthor(UpsertAll(rows, links), links[k].author).value] == links[k]
    decreases |links|
  {
    var init := links[..|links| - 1];
    var e := links[|links| - 1];
    var r' := UpsertAll(rows, init);
    assert UpsertAll(rows, links) == UpsertLink(r', e);
    if k < |init| {
      assert init[k] == links[k];
      assert LastOfAuthor(init, k) by {
        forall k' | k < k' < |init| ensures init[k'].author != init[k].author {
          assert init[k'] == links[k'];
        }
      }
      UpsertAllLastWins(rows, init, k);
      UpsertLinkFind(r', e, links[k].author);
      UpsertLinkShape(r', e);
      assert e.author != links[k].author;
    } else {
      UpsertLinkFind(r', e, e.author);
    }
  }
}
