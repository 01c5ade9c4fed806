/** String helpers shared by the model: the whitespace classes of JavaScript
    and Python, trimming, ASCII lower-casing, searching, splitting and the
    first-occurrence and all-occurrence replacements of the two languages. */
module Text {
  import opened Wrappers

  /** JavaScript's WhiteSpace and LineTerminator characters: what `trim()`
      strips and what the regular-expression class `\s` matches. */
  predicate IsJsSpace(c: char) {
    c == '\t' || c == '\n' || c == '\U{000B}' || c == '\U{000C}' || c == '\r' || c == ' '
    || c == '\U{00A0}' || c == '\U{1680}' || ('\U{2000}' <= c <= '\U{200A}')
    || c == '\U{2028}' || c == '\U{2029}' || c == '\U{202F}' || c == '\U{205F}'
    || c == '\U{3000}' || c == '\U{FEFF}'
  }

  /** Python's `str.isspace()` characters: what `str.strip()` strips and what
      `\s` matches in a `str` pattern of the `re` module. */
  predicate IsPySpace(c: char) {
    ('\t' <= c <= '\r') || ('\U{001C}' <= c <= '\U{001F}') || c == ' '
    || c == '\U{0085}' || c == '\U{00A0}' || c == '\U{1680}' || ('\U{2000}' <= c <= '\U{200A}')
    || c == '\U{2028}' || c == '\U{2029}' || c == '\U{202F}' || c == '\U{205F}' || c == '\U{3000}'
  }

  /** Drops the leading run of `ws` characters. */
  function TrimStart(s: string, ws: char -> bool): (r: string)
    ensures |r| <= |s|
    ensures r == [] || !ws(r[0])
    ensures forall i :: 0 <= i < |s| - |r| ==> ws(s[i])
  {
    if s == [] || !ws(s[0]) then s else TrimStart(s[1..], ws)
  }

  /** What `TrimStart` keeps is a suffix of its input. */
  lemma {:induction false} TrimStartIsSuffix(s: string, ws: char -> bool)
    ensures TrimStart(s, ws) == s[|s| - |TrimStart(s, ws)|..]
    decreases |s|
  {
    if s != [] && ws(s[0]) {
      TrimStartIsSuffix(s[1..], ws);
    }
  }

  /** Drops the trailing run of `ws` characters. */
  function TrimEnd(s: string, ws: char -> bool): (r: string)
    ensures |r| <= |s|
    ensures r == [] || !ws(r[|r| - 1])
    ensures forall i :: |r| <= i < |s| ==> ws(s[i])
  {
    if s == [] || !ws(s[|s| - 1]) then s else TrimEnd(s[..|s| - 1], ws)
  }

  /** What `TrimEnd` keeps is a prefix of its input. */
  lemma {:induction false} TrimEndIsPrefix(s: string, ws: char -> bool)
    ensures TrimEnd(s, ws) == s[..|TrimEnd(s, ws)|]
    decreases |s|
  {
    if s != [] && ws(s[|s| - 1]) {
      TrimEndIsPrefix(s[..|s| - 1], ws);
    }
  }

  /** `trim()` in JavaScript, `strip()` in Python (with the matching `ws`). */
  function Trim(s: string, ws: char -> bool): string {
    TrimEnd(TrimStart(s, ws), ws)
  }

  function LowerChar(c: char): char {
    if 'A' <= c <= 'Z' then (c as int + 32) as char else c
  }

  /** `toLowerCase()` restricted to ASCII letters. */
  function AsciiLower(s: string): (r: string)
    ensures |r| == |s|
    ensures forall i :: 0 <= i < |s| ==> r[i] == LowerChar(s[i])
  {
    seq(|s|, i requires 0 <= i < |s| => LowerChar(s[i]))
  }

  /** JavaScript's `.length`: the number of UTF-16 code units, two for a
      character beyond the Basic Multilingual Plane. */
  function Utf16Length(s: string): (n: nat)
    ensures |s| <= n <= 2 * |s|
    decreases |s|
  {
    if s == [] then 0 else Utf16Length(s[..|s| - 1]) + (if s[|s| - 1] as int > 0xFFFF then 2 else 1)
  }

  /** `.length` counts the characters exactly when none of them lies
      beyond the Basic Multilingual Plane. */
  lemma {:induction false} Utf16LengthIsCount(s: string)
    ensures Utf16Length(s) == |s| <==> forall i :: 0 <= i < |s| ==> s[i] as int <= 0xFFFF
    decreases |s|
  {
    if s != [] {
      var init := s[..|s| - 1];
      Utf16LengthIsCount(init);
      if forall i :: 0 <= i < |s| ==> s[i] as int <= 0xFFFF {
        forall i | 0 <= i < |init| ensures init[i] as int <= 0xFFFF {
          assert init[i] == s[i];
        }
      }
      if Utf16Length(s) == |s| {
        assert s[|s| - 1] as int <= 0xFFFF;
        forall i | 0 <= i < |s| ensures s[i] as int <= 0xFFFF {
          if i < |init| {
            assert init[i] == s[i];
          }
        }
      }
    }
  }

  /** Lower-casing leaves no ASCII capital, keeps every other character,
      and changes nothing the second time. */
  lemma AsciiLowerLowers(s: string)
    ensures forall i :: 0 <= i < |s| ==> !('A' <= AsciiLower(s)[i] <= 'Z')
    ensures forall i :: 0 <= i < |s| && !('A' <= s[i] <= 'Z') ==> AsciiLower(s)[i] == s[i]
    ensures AsciiLower(AsciiLower(s)) == AsciiLower(s)
  {
  }

  predicate IsLowerAsciiLetter(c: char) {
    'a' <= c <= 'z'
  }

  predicate StartsWith(s: string, prefix: string) {
    |prefix| <= |s| && s[..|prefix|] == prefix
  }

  predicate EndsWith(s: string, suffix: string) {
    |suffix| <= |s| && s[|s| - |suffix|..] == suffix
  }

  predicate OccursAt(s: string, pat: string, i: nat) {
    i + |pat| <= |s| && s[i..i + |pat|] == pat
  }

  /** `indexOf`: the first position where `pat` occurs. */
  function IndexOf(s: string, pat: string): (r: Option<nat>)
    ensures r.Some? ==> OccursAt(s, pat, r.value)
    ensures r.Some? ==> forall j :: 0 <= j < r.value ==> !OccursAt(s, pat, j)
    ensures r.None? ==> forall j :: 0 <= j <= |s| ==> !OccursAt(s, pat, j)
  {
    IndexOfFrom(s, pat, 0)
  }

  function IndexOfFrom(s: string, pat: string, from: nat): (r: Option<nat>)
    requires from <= |s|
    ensures r.Some? ==> from <= r.value && OccursAt(s, pat, r.value)
    ensures r.Some? ==> forall j :: from <= j < r.value ==> !OccursAt(s, pat, j)
    ensures r.None? ==> forall j :: from <= j <= |s| ==> !OccursAt(s, pat, j)
    decreases |s| - from
  {
    if from + |pat| > |s| then None
    else if OccursAt(s, pat, from) then Some(from)
    else if from == |s| then None
    else IndexOfFrom(s, pat, from + 1)
  }

  /** JavaScript's `s.replace(pat, rep)` with a string pattern: only the first
      occurrence is replaced. */
  function ReplaceFirst(s: string, pat: string, rep: string): (r: string)
    ensures IndexOf(s, pat).None? ==> r == s
    ensures IndexOf(s, pat).Some? ==> var i := IndexOf(s, pat).value;
      r == s[..i] + rep + s[i + |pat|..]
  {
    match IndexOf(s, pat)
    case None => s
    case Some(i) => s[..i] + rep + s[i + |pat|..]
  }

  /** In `x + pat + y` with no earlier occurrence of `pat`, the replacement
      keeps `x` and `y` around `rep`. */
  lemma ReplaceFirstSplits(x: string, pat: string, y: string, rep: string)
    requires forall j :: 0 <= j < |x| ==> !OccursAt(x + pat + y, pat, j)
    ensures ReplaceFirst(x + pat + y, pat, rep) == x + rep + y
  {
    var s := x + pat + y;
    assert OccursAt(s, pat, |x|) by {
      assert s[|x|..|x| + |pat|] == pat;
    }
    var i := IndexOf(s, pat).value;
    assert i == |x|;
    assert s[..i] == x;
    assert s[i + |pat|..] == y;
  }

  /** Python's `s.replace(pat, rep)`: every non-overlapping occurrence, left to right. */
  function ReplaceAll(s: string, pat: string, rep: string): string
    requires pat != ""
    decreases |s|
  {
    if |s| < |pat| then s
    else if s[..|pat|] == pat then rep + ReplaceAll(s[|pat|..], pat, rep)
    else [s[0]] + ReplaceAll(s[1..], pat, rep)
  }

  /** `s.split(sep)` with a one-character separator. */
  function SplitOn(s: string, sep: char): (r: seq<string>)
    ensures |r| >= 1
    ensures forall k :: 0 <= k < |r| ==> sep !in r[k]
    ensures sep !in s ==> r == [s]
    decreases |s|
  {
    if sep !in s then [s]
    else
      var i := FirstIndexOfChar(s, sep);
      [s[..i]] + SplitOn(s[i + 1..], sep)
  }

  function FirstIndexOfChar(s: string, c: char): (i: nat)
    requires c in s
    ensures i < |s| && s[i] == c && c !in s[..i]
  {
    if s[0] == c then 0 else 1 + FirstIndexOfChar(s[1..], c)
  }

  /** `parts.join(sep)`. */
  function Join(parts: seq<string>, sep: string): string {
    if parts == [] then ""
    else if |parts| == 1 then parts[0]
    else parts[0] + sep + Join(parts[1..], sep)
  }

  lemma {:induction false} JoinSplit(s: string, sep: char)
    ensures Join(SplitOn(s, sep), [sep]) == s
    decreases |s|
  {
    if sep in s {
      var i := FirstIndexOfChar(s, sep);
      var head, tail := s[..i], s[i + 1..];
      var rest := SplitOn(tail, sep);
      JoinSplit(tail, sep);
      assert SplitOn(s, sep) == [head] + rest;
      JoinOfCons(head, rest, [sep]);
      CutAt(s, i);
    }
  }

  lemma JoinOfCons(head: string, rest: seq<string>, sep: string)
    requires rest != []
    ensures Join([head] + rest, sep) == head + sep + Join(rest, sep)
  {
    assert ([head] + rest)[1..] == rest;
  }

  /** A string is what comes before position `i`, the character at `i`,
      and what comes after. */
  lemma CutAt(s: string, i: nat)
    requires i < |s|
    ensures s == s[..i] + [s[i]] + s[i + 1..]
  {
  }

  /** `s.split(sep)[0]`: the longest prefix without `sep`, which is all of
      `s` or is followed by `sep`. */
  lemma SplitHead(s: string, sep: char)
    ensures var h := SplitOn(s, sep)[0];
      && sep !in h && StartsWith(s, h)
      && (h == s || (|h| < |s| && s[|h|] == sep))
      && (h == s <==> sep !in s)
  {
    if sep in s {
      var i := FirstIndexOfChar(s, sep);
      assert SplitOn(s, sep)[0] == s[..i];
    }
  }

  /** `s.split(sep)` has a second piece exactly when `sep` occurs, and that
      piece is the head of what follows the first `sep`. */
  lemma SplitSecond(s: string, sep: char)
    ensures |SplitOn(s, sep)| >= 2 <==> sep in s
    ensures sep in s ==> SplitOn(s, sep)[1] == SplitOn(s[FirstIndexOfChar(s, sep) + 1..], sep)[0]
  {
  }

  /** `lastIndexOf` for one character. */
  function LastIndexOfChar(s: string, c: char): (r: Option<nat>)
    ensures r.None? <==> c !in s
    ensures r.Some? ==> r.value < |s| && s[r.value] == c && c !in s[r.value + 1..]
  {
    if s == [] then None
    else if s[|s| - 1] == c then Some(|s| - 1)
    else
      assert s == s[..|s| - 1] + [s[|s| - 1]];
      LastIndexOfChar(s[..|s| - 1], c)
  }

  /** The last `c` of `x + [c] + y` is the one after `x` when `y` has none. */
  lemma LastIndexOfCharAt(x: string, c: char, y: string)
    requires c !in y
    ensures LastIndexOfChar(x + [c] + y, c) == Some(|x|)
  {
    var s := x + [c] + y;
    assert s[|x|] == c;
    assert s[|x| + 1..] == y;
  }

  /** `repository.split('/')[0]`: the author of an `author/repo` id. */
  function AuthorOf(repository: string): (r: string)
    ensures '/' !in r && StartsWith(repository, r)
    ensures r == repository <==> '/' !in repository
    ensures r != repository ==> |r| < |repository| && repository[|r|] == '/'
  {
    SplitHead(repository, '/');
    SplitOn(repository, '/')[0]
  }

  /** `repository.split('/')[1]`: the repository name, `undefined` (`None`)
      without a '/'. */
  function RepoNameOf(repository: string): (r: Option<string>)
    ensures r.None? <==> '/' !in repository
    ensures r.Some? ==> '/' !in r.value
  {
    var parts := SplitOn(repository, '/');
    SplitSecond(repository, '/');
    if |parts| >= 2 then Some(parts[1]) else None
  }

  /** The author is the text before the first '/'. */
  lemma AuthorIsBeforeFirstSlash(s: string)
    requires '/' in s
    ensures AuthorOf(s) == s[..FirstIndexOfChar(s, '/')]
  {
    var i := FirstIndexOfChar(s, '/');
    assert |AuthorOf(s)| == i by {
      assert s[i] == '/';
    }
  }

  /** The repository name is the text between the first '/' and the next
      one (or the end). */
  lemma RepoNameIsSecondSegment(s: string)
    requires '/' in s
    ensures var a := AuthorOf(s);
      var r := RepoNameOf(s).value;
      && StartsWith(s, a + "/" + r)
      && (|a| + 1 + |r| == |s| || s[|a| + 1 + |r|] == '/')
  {
    var i := FirstIndexOfChar(s, '/');
    var rest := s[i + 1..];
    SplitSecond(s, '/');
    SplitHead(rest, '/');
    AuthorIsBeforeFirstSlash(s);
    var r := SplitOn(rest, '/')[0];
    assert RepoNameOf(s).value == r;
    SegmentAfterSlash(s, i, r);
  }

  /** A piece that starts right after the '/' at `i` and runs to the end or
      to the next '/'. */
  lemma SegmentAfterSlash(s: string, i: nat, r: string)
    requires i < |s| && s[i] == '/' && StartsWith(s[i + 1..], r)
    requires r == s[i + 1..] || (|r| < |s| - i - 1 && s[i + 1..][|r|] == '/')
    ensures StartsWith(s, s[..i] + "/" + r)
    ensures i + 1 + |r| == |s| || s[i + 1 + |r|] == '/'
  {
    assert s[i + 1..][..|r|] == s[i + 1..i + 1 + |r|];
    assert s[..i + 1 + |r|] == s[..i] + "/" + r;
  }

  /** Composing `author/repo` and splitting it again gives both halves back. */
  lemma RepositoryRoundTrip(author: string, repoName: string)
    requires '/' !in author && '/' !in repoName
    ensures AuthorOf(author + "/" + repoName) == author
    ensures RepoNameOf(author + "/" + repoName) == Some(repoName)
  {
    var s := author + "/" + repoName;
    var a := AuthorOf(s);
    assert s[|author|] == '/';
    assert s[..|author|] == author;
    assert a == author;
    RepoNameIsSecondSegment(s);
    var r := RepoNameOf(s).value;
    assert s[|author| + 1..] == repoName;
    assert s[|a| + 1..|a| + 1 + |r|] == r;
    assert r == repoName;
  }
}
