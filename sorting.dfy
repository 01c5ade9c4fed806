/** `Array.prototype.sort` with a `localeCompare` comparator on one string
    key. The collation is a parameter `le` (a `localeCompare(a, b) <= 0`
    test); the sort is stable, as the language requires. */
module Sorting {

  /** What `localeCompare` is taken to be: a total preorder on strings. */
  ghost predicate TotalPreorder(le: (string, string) -> bool) {
    && (forall a, b :: le(a, b) || le(b, a))
    && (forall a, b, c :: le(a, b) && le(b, c) ==> le(a, c))
  }

  ghost predicate SortedBy<T>(key: T -> string, le: (string, string) -> bool, s: seq<T>) {
    forall i, j :: 0 <= i < j < |s| ==> le(key(s[i]), key(s[j]))
  }

  /** Inserts `x` before the first element whose key is strictly after it. */
  function Insert<T>(key: T -> string, le: (string, string) -> bool, x: T, s: seq<T>): (r: seq<T>)
    ensures multiset(r) == multiset(s) + multiset{x}
    ensures |r| == |s| + 1
  {
    if s == [] then [x]
    else if !le(key(s[0]), key(x)) then [x] + s
    else
      assert s == [s[0]] + s[1..];
      [s[0]] + Insert(key, le, x, s[1..])
  }

  /** The stable sort: elements are inserted in input order. */
  function SortBy<T>(key: T -> string, le: (string, string) -> bool, s: seq<T>): (r: seq<T>)
    ensures multiset(r) == multiset(s)
    ensures |r| == |s|
  {
    if s == [] then []
    else
      assert s == s[..|s| - 1] + [s[|s| - 1]];
      Insert(key, le, s[|s| - 1], SortBy(key, le, s[..|s| - 1]))
  }

  lemma {:induction false} InsertSorted<T>(key: T -> string, le: (string, string) -> bool, x: T, s: seq<T>)
    requires TotalPreorder(le)
    requires SortedBy(key, le, s)
    ensures SortedBy(key, le, Insert(key, le, x, s))
  {
    if s != [] && le(key(s[0]), key(x)) {
      var t := Insert(key, le, x, s[1..]);
      InsertSorted(key, le, x, s[1..]);
      assert multiset(t) == multiset(s[1..]) + multiset{x};
      forall j | 0 <= j < |t|
        ensures le(key(s[0]), key(t[j]))
      {
        assert t[j] in multiset(t);
        if t[j] != x {
          assert t[j] in multiset(s[1..]);
          var k :| 0 <= k < |s[1..]| && s[1..][k] == t[j];
          assert s[k + 1] == t[j];
        }
      }
    } else if s != [] {
      assert le(key(x), key(s[0]));
      forall i, j | 0 <= i < j < |[x] + s|
        ensures le(key(([x] + s)[i]), key(([x] + s)[j]))
      {
        if i == 0 && j > 1 {
          assert le(key(s[0]), key(s[j - 1]));
        }
      }
    }
  }

  /** The sort's output is in order. */
  lemma {:induction false} SortByIsSorted<T>(key: T -> string, le: (string, string) -> bool, s: seq<T>)
    requires TotalPreorder(le)
    ensures SortedBy(key, le, SortBy(key, le, s))
    decreases |s|
  {
    if s != [] {
      SortByIsSorted(key, le, s[..|s| - 1]);
      InsertSorted(key, le, s[|s| - 1], SortBy(key, le, s[..|s| - 1]));
    }
  }

  /** An already sorted sequence is left as it is (the sort is stable). */
  lemma {:induction false} SortBySortedIsIdentity<T>(key: T -> string, le: (string, string) -> bool, s: seq<T>)
    requires SortedBy(key, le, s)
    ensures SortBy(key, le, s) == s
    decreases |s|
  {
    if s != [] {
      var init := s[..|s| - 1];
      assert SortedBy(key, le, init);
      SortBySortedIsIdentity(key, le, init);
      InsertAtEnd(key, le, s[|s| - 1], init);
      assert init + [s[|s| - 1]] == s;
    }
  }

  lemma {:induction false} InsertAtEnd<T>(key: T -> string, le: (string, string) -> bool, x: T, s: seq<T>)
    requires forall i :: 0 <= i < |s| ==> le(key(s[i]), key(x))
    ensures Insert(key, le, x, s) == s + [x]
  {
    if s != [] {
      InsertAtEnd(key, le, x, s[1..]);
      assert [s[0]] + (s[1..] + [x]) == s + [x];
    }
  }
}
