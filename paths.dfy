/** Repository-relative file paths as the glob of the extraction step yields
    them: '/'-separated, no empty, `.` or `..` components. A path is the
    sequence of its components; the empty sequence is the empty string. */
module Paths {
  import opened Wrappers
  import opened Text

  predicate IsSegment(s: string) {
    s != "" && s != "." && s != ".." && '/' !in s
  }

  type Segment = s: string | IsSegment(s) witness "a"

  type Path = seq<Segment>

  /** The path as a string: its components joined with '/'. */
  function ToString(p: Path): string {
    Join(p, "/")
  }

  /** `path.basename` of a non-empty path. */
  function Basename(p: Path): Segment
    requires p != []
  {
    p[|p| - 1]
  }

  /** `path.join(p, '..')` for a path of two or more components. */
  function Parent(p: Path): Path
    requires |p| >= 2
  {
    p[..|p| - 1]
  }

  /** A path string ends with `suffix` (no '/' in it) exactly when its last
      component does. */
  predicate PathEndsWith(p: Path, suffix: string) {
    p != [] && EndsWith(Basename(p), suffix)
  }

  /** `filePath.replace(`${filePath.split('/')[0]}/`, '')`: the path without
      its first component, or the path itself when it has only one. */
  function StripFirstSegment(p: Path): Path {
    if |p| >= 2 then p[1..] else p
  }

  lemma JoinCons(p: Path)
    requires |p| >= 2
    ensures ToString(p) == p[0] + "/" + ToString(p[1..])
  {
  }

  /** The component-level definition computes exactly the string replacement
      the source performs. */
  lemma StripFirstSegmentIsReplace(p: Path)
    ensures var s := ToString(p);
      ToString(StripFirstSegment(p)) == ReplaceFirst(s, SplitOn(s, '/')[0] + "/", "")
  {
    var s := ToString(p);
    if |p| >= 2 {
      JoinCons(p);
      var head: string := p[0];
      assert s == head + "/" + ToString(p[1..]);
      assert s[|head|] == '/';
      assert '/' in s;
      var i := FirstIndexOfChar(s, '/');
      assert s[..|head|] == head;
      assert i == |head|;
      assert SplitOn(s, '/')[0] == head;
      assert OccursAt(s, head + "/", 0);
      assert IndexOf(s, head + "/") == Some(0);
      assert s[|head + "/"|..] == ToString(p[1..]);
    } else if |p| == 1 {
      assert s == p[0];
      assert SplitOn(s, '/') == [s];
      assert forall j :: 0 <= j <= |s| ==> !OccursAt(s, s + "/", j);
    } else {
      assert s == "";
      assert SplitOn(s, '/') == [""];
      assert !OccursAt(s, "/", 0);
    }
  }

  /** The path string is its parent's string, '/', and its basename. */
  lemma {:induction false} JoinSnoc(p: Path)
    requires |p| >= 2
    ensures ToString(p) == ToString(Parent(p)) + "/" + Basename(p)
    decreases |p|
  {
    JoinCons(p);
    if |p| > 2 {
      JoinSnoc(p[1..]);
      assert Parent(p[1..]) == Parent(p)[1..];
      JoinCons(Parent(p));
    }
  }

  /** The path string ends with a '/'-free suffix exactly when its basename
      does: the source's `currentPath.endsWith('.json')` is a test on the
      last component. */
  lemma {:induction false} EndsWithIsBasenameTest(p: Path, suffix: string)
    requires p != [] && '/' !in suffix
    ensures EndsWith(ToString(p), suffix) <==> PathEndsWith(p, suffix)
  {
    var s := ToString(p);
    var b: string := Basename(p);
    if |p| >= 2 {
      JoinSnoc(p);
      var pre := ToString(Parent(p)) + "/";
      assert s == pre + b;
      if EndsWith(s, suffix) {
        assert forall i :: |s| - |suffix| <= i < |s| ==> s[i] != '/' by {
          forall i | |s| - |suffix| <= i < |s| ensures s[i] != '/' {
            assert s[i] == suffix[i - (|s| - |suffix|)];
          }
        }
        assert s[|s| - |b| - 1] == '/';
        assert |suffix| <= |b|;
      }
      if EndsWith(s, suffix) {
        assert s[|s| - |suffix|..] == b[|b| - |suffix|..];
      }
      if EndsWith(b, suffix) {
        assert s[|s| - |suffix|..] == b[|b| - |suffix|..];
      }
    } else {
      assert s == b;
    }
  }

  /** `s.split('/')` of a non-empty path gives back its components. */
  lemma {:induction false} SplitOfToString(p: Path)
    requires p != []
    ensures SplitOn(ToString(p), '/') == p
    decreases |p|
  {
    var s := ToString(p);
    var head: string := p[0];
    if |p| == 1 {
      assert s == head;
    } else {
      JoinCons(p);
      SplitOfToString(p[1..]);
      assert s == head + "/" + ToString(p[1..]);
      assert '/' in s by { assert s[|head|] == '/'; }
      var i := FirstIndexOfChar(s, '/');
      assert s[..|head|] == head;
      assert i == |head|;
      assert s[i + 1..] == ToString(p[1..]);
      assert SplitOn(s, '/') == [head] + p[1..];
    }
  }

  /** The walk that `path.basename` / `path.join(p, '..')` recursion performs:
      while the current path is noise, go up one component; the answer is the
      basename of the first path that is not. Going up from a one-component
      path gives ".", which is never noise for the predicates used here; the
      empty path "" is its own basename. */
  function StripNoise(p: Path, noise: Path -> bool): string
    decreases |p|
  {
    if p == [] then ""
    else if noise(p) then (if |p| == 1 then "." else StripNoise(Parent(p), noise))
    else Basename(p)
  }

  /** The component at index `k`, seen as the path that ends there, is noise. */
  predicate NoiseAt(p: Path, noise: Path -> bool, k: nat)
    requires k < |p|
  {
    noise(p[..k + 1])
  }

  /** Independent statement of the walk, first half: when every component
      is noise the answer is ".". */
  lemma {:induction false} StripNoiseAllNoise(p: Path, noise: Path -> bool)
    requires p != []
    requires forall i :: 0 <= i < |p| ==> NoiseAt(p, noise, i)
    ensures StripNoise(p, noise) == "."
    decreases |p|
  {
    assert p[..|p|] == p;
    assert NoiseAt(p, noise, |p| - 1);
    if |p| > 1 {
      var q := Parent(p);
      forall i | 0 <= i < |q|
        ensures NoiseAt(q, noise, i)
      {
        assert q[..i + 1] == p[..i + 1];
        assert NoiseAt(p, noise, i);
      }
      StripNoiseAllNoise(q, noise);
    }
  }

  /** Independent statement of the walk, second half: the answer is the
      innermost component that is not noise. */
  lemma {:induction false} StripNoiseInnermost(p: Path, noise: Path -> bool, k: nat)
    requires k < |p| && !NoiseAt(p, noise, k)
    requires forall j :: k < j < |p| ==> NoiseAt(p, noise, j)
    ensures StripNoise(p, noise) == p[k]
    decreases |p|
  {
    assert p[..|p|] == p;
    if k < |p| - 1 {
      assert NoiseAt(p, noise, |p| - 1);
      var q := Parent(p);
      assert q[..k + 1] == p[..k + 1];
      forall j | k < j < |q|
        ensures NoiseAt(q, noise, j)
      {
        assert q[..j + 1] == p[..j + 1];
        assert NoiseAt(p, noise, j);
      }
      StripNoiseInnermost(q, noise, k);
    }
  }

  /** Whatever the walk returns is "", ".", or a component that is not noise. */
  lemma {:induction false} StripNoiseKept(p: Path, noise: Path -> bool)
    ensures var r := StripNoise(p, noise);
      && (r == "" <==> p == [])
      && (r == "" || r == "." || exists k :: 0 <= k < |p| && r == p[k] && !NoiseAt(p, noise, k))
    decreases |p|
  {
    if p != [] {
      assert p[..|p|] == p;
      if noise(p) && |p| > 1 {
        var q := Parent(p);
        StripNoiseKept(q, noise);
        var r := StripNoise(q, noise);
        if r != "" && r != "." {
          var k :| 0 <= k < |q| && r == q[k] && !NoiseAt(q, noise, k);
          assert q[..k + 1] == p[..k + 1];
          assert r == p[k] && !NoiseAt(p, noise, k);
        }
      }
    }
  }
}
