/** Collapsing runs of whitespace, for a whitespace class `ws`: JavaScript's
    `replace(/\s+/g, ' ')` with `IsJsSpace`, Python's `re.sub(r'\s+', ' ', s)`
    with `IsPySpace`. */
module Whitespace {
  import opened Text

  /** Each maximal run of `ws` characters becomes one space. */
  function CollapseSpaces(s: string, ws: char -> bool): string
    decreases |s|
  {
    if s == [] then ""
    else if !ws(s[0]) then [s[0]] + CollapseSpaces(s[1..], ws)
    else " " + CollapseSpaces(TrimStart(s[1..], ws), ws)
  }

  /** No whitespace character is followed by another one. */
  predicate NoDoubleSpace(s: string, ws: char -> bool) {
    forall i :: 0 <= i < |s| - 1 ==> !(ws(s[i]) && ws(s[i + 1]))
  }

  /** Every whitespace character is the plain space. */
  predicate OnlyPlainSpaces(s: string, ws: char -> bool) {
    forall i :: 0 <= i < |s| ==> ws(s[i]) ==> s[i] == ' '
  }

  predicate NoEdgeSpace(s: string, ws: char -> bool) {
    s == [] || (!ws(s[0]) && !ws(s[|s| - 1]))
  }

  /** The characters that are not whitespace, in order. */
  function NonSpace(s: string, ws: char -> bool): string
    decreases |s|
  {
    if s == [] then ""
    else if ws(s[0]) then NonSpace(s[1..], ws)
    else [s[0]] + NonSpace(s[1..], ws)
  }

  /** The collapse keeps the first and last character's class: a string that
      starts (ends) with a non-space keeps that character at the front (end),
      one that starts with whitespace starts with a plain space, and the empty
      string stays empty. */
  lemma {:induction false} CollapseEdges(s: string, ws: char -> bool)
    ensures CollapseSpaces(s, ws) == [] <==> s == []
    ensures s != [] && !ws(s[0]) ==> CollapseSpaces(s, ws)[0] == s[0]
    ensures s != [] && ws(s[0]) ==> CollapseSpaces(s, ws)[0] == ' '
    ensures s != [] && !ws(s[|s| - 1]) ==> var r := CollapseSpaces(s, ws); r[|r| - 1] == s[|s| - 1]
    decreases |s|
  {
    if s != [] {
      if !ws(s[0]) {
        CollapseEdges(s[1..], ws);
      } else {
        var t := TrimStart(s[1..], ws);
        CollapseEdges(t, ws);
        TrimStartIsSuffix(s[1..], ws);
        if !ws(s[|s| - 1]) {
          assert t != [] && t[|t| - 1] == s[|s| - 1];
        }
      }
    }
  }

  /** The collapse leaves no two whitespace characters side by side, and only
      plain spaces. */
  lemma {:induction false} CollapseShape(s: string, ws: char -> bool)
    ensures NoDoubleSpace(CollapseSpaces(s, ws), ws)
    ensures OnlyPlainSpaces(CollapseSpaces(s, ws), ws)
    decreases |s|
  {
    if s != [] {
      if !ws(s[0]) {
        CollapseShape(s[1..], ws);
      } else {
        var t := TrimStart(s[1..], ws);
        CollapseShape(t, ws);
        CollapseEdges(t, ws);
      }
    }
  }

  /** Nothing but whitespace is lost: the non-space characters come out in
      the same order. */
  lemma {:induction false} CollapseKeepsText(s: string, ws: char -> bool)
    requires ws(' ')
    ensures NonSpace(CollapseSpaces(s, ws), ws) == NonSpace(s, ws)
    decreases |s|
  {
    if s != [] {
      if !ws(s[0]) {
        CollapseKeepsText(s[1..], ws);
      } else {
        var t := TrimStart(s[1..], ws);
        CollapseKeepsText(t, ws);
        TrimStartIsSuffix(s[1..], ws);
        NonSpaceOfSpaces(s[1..], |s[1..]| - |t|, ws);
      }
    }
  }

  /** Dropping a prefix of whitespace does not change the non-space text. */
  lemma {:induction false} NonSpaceOfSpaces(s: string, k: nat, ws: char -> bool)
    requires k <= |s| && forall i :: 0 <= i < k ==> ws(s[i])
    ensures NonSpace(s[k..], ws) == NonSpace(s, ws)
    decreases k
  {
    if k > 0 {
      NonSpaceOfSpaces(s[1..], k - 1, ws);
      assert s[1..][k - 1..] == s[k..];
    }
  }

  /** Dropping a suffix of whitespace does not change the non-space text. */
  lemma {:induction false} NonSpaceOfTrailingSpaces(s: string, k: nat, ws: char -> bool)
    requires k <= |s| && forall i :: k <= i < |s| ==> ws(s[i])
    ensures NonSpace(s[..k], ws) == NonSpace(s, ws)
    decreases |s|
  {
    if k == |s| {
      assert s[..k] == s;
    } else if k == 0 {
      AllSpacesNoText(s, ws);
    } else {
      NonSpaceOfTrailingSpaces(s[1..], k - 1, ws);
      assert s[1..][..k - 1] == s[..k][1..];
      assert s[..k][0] == s[0];
    }
  }

  lemma {:induction false} AllSpacesNoText(s: string, ws: char -> bool)
    requires forall i :: 0 <= i < |s| ==> ws(s[i])
    ensures NonSpace(s, ws) == ""
    decreases |s|
  {
    if s != [] {
      AllSpacesNoText(s[1..], ws);
    }
  }

  /** A string with single plain spaces between words is a fixpoint of the
      collapse. */
  lemma {:induction false} CollapseFixpoint(s: string, ws: char -> bool)
    requires NoDoubleSpace(s, ws) && OnlyPlainSpaces(s, ws)
    ensures CollapseSpaces(s, ws) == s
    decreases |s|
  {
    if s != [] {
      assert NoDoubleSpace(s[1..], ws) && OnlyPlainSpaces(s[1..], ws) by {
        forall i | 0 <= i < |s[1..]| - 1
          ensures !(ws(s[1..][i]) && ws(s[1..][i + 1]))
        {
          assert s[1..][i] == s[i + 1] && s[1..][i + 1] == s[i + 2];
        }
      }
      if ws(s[0]) {
        assert s[1..] == [] || !ws(s[1..][0]) by {
          if |s| > 1 { assert s[1..][0] == s[1]; }
        }
        assert TrimStart(s[1..], ws) == s[1..];
      }
      CollapseFixpoint(s[1..], ws);
    }
  }

  /** A string with no whitespace at either end is its own trim. */
  lemma TrimUntrimmed(s: string, ws: char -> bool)
    requires NoEdgeSpace(s, ws)
    ensures Trim(s, ws) == s
  {
    assert TrimStart(s, ws) == s;
  }

  /** Trimming is a slice that drops whitespace only: no whitespace is left
      at either end, the non-space text is kept, and so is a string's
      collapsed shape. */
  lemma TrimShape(s: string, ws: char -> bool)
    ensures var r := Trim(s, ws);
      && NoEdgeSpace(r, ws)
      && NonSpace(r, ws) == NonSpace(s, ws)
      && (NoDoubleSpace(s, ws) && OnlyPlainSpaces(s, ws) ==> NoDoubleSpace(r, ws) && OnlyPlainSpaces(r, ws))
  {
    var r := Trim(s, ws);
    var a := |s| - |TrimStart(s, ws)|;
    var u := TrimStart(s, ws);
    TrimEndIsPrefix(u, ws);
    assert r == [] || r[0] == u[0];
    TrimKeepsText(s, ws);
    TrimIsSlice(s, ws);
    SliceKeepsShape(s, a, a + |r|, ws);
  }

  lemma TrimKeepsText(s: string, ws: char -> bool)
    ensures NonSpace(Trim(s, ws), ws) == NonSpace(s, ws)
  {
    var u := TrimStart(s, ws);
    TrimStartIsSuffix(s, ws);
    TrimEndIsPrefix(u, ws);
    NonSpaceOfSpaces(s, |s| - |u|, ws);
    NonSpaceOfTrailingSpaces(u, |Trim(s, ws)|, ws);
  }

  /** `trim` keeps the slice of `s` that starts after the leading
      whitespace. */
  lemma TrimIsSlice(s: string, ws: char -> bool)
    ensures var a := |s| - |TrimStart(s, ws)|;
      a + |Trim(s, ws)| <= |s| && Trim(s, ws) == s[a..a + |Trim(s, ws)|]
  {
    var u := TrimStart(s, ws);
    TrimStartIsSuffix(s, ws);
    TrimEndIsPrefix(u, ws);
    var a := |s| - |u|;
    assert u[..|Trim(s, ws)|] == s[a..a + |Trim(s, ws)|];
  }

  /** A slice of a collapsed string is collapsed. */
  lemma SliceKeepsShape(s: string, lo: nat, hi: nat, ws: char -> bool)
    requires lo <= hi <= |s|
    ensures NoDoubleSpace(s, ws) ==> NoDoubleSpace(s[lo..hi], ws)
    ensures OnlyPlainSpaces(s, ws) ==> OnlyPlainSpaces(s[lo..hi], ws)
  {
    var t := s[lo..hi];
    assert forall i :: 0 <= i < |t| ==> t[i] == s[lo + i];
  }
}
