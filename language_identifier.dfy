/** The GlotLID identifier service: `clean_input_text`, the `/identify`
    endpoint and the model slot that `lifespan` fills at start-up and clears
    at shutdown. fastText's prediction is the parameter `predict` (the top
    label for `k=1`); its confidence is left out. */
module LanguageIdentifier {
  import opened Wrappers
  import opened Text
  import opened Whitespace

  /** `http\S+` matches at `i`: `http` and at least one non-space after it. */
  predicate UrlAt(s: string, i: nat) {
    i + 4 < |s| && s[i] == 'h' && s[i + 1] == 't' && s[i + 2] == 't' && s[i + 3] == 'p' && !IsPySpace(s[i + 4])
  }

  predicate NoUrl(s: string) {
    forall i :: 0 <= i < |s| ==> !UrlAt(s, i)
  }

  /** The length of the leading run of non-space characters. */
  function WordLength(s: string): (n: nat)
    ensures n <= |s|
    ensures forall i :: 0 <= i < n ==> !IsPySpace(s[i])
    ensures n == |s| || IsPySpace(s[n])
  {
    if s == [] || IsPySpace(s[0]) then 0 else 1 + WordLength(s[1..])
  }

  /** `re.sub(r'http\S+', '', s)`: scanning from the left, each `http` is
      removed with the whole run of non-space characters after it. */
  function RemoveUrls(s: string): string
    decreases |s|
  {
    if s == [] then ""
    else if UrlAt(s, 0) then RemoveUrls(s[4 + WordLength(s[4..])..])
    else [s[0]] + RemoveUrls(s[1..])
  }

  /** A removal stops at a space or at the end of the text. */
  lemma RemovalEndsAtSpace(s: string)
    ensures UrlAt(s, 0) ==> RemoveUrls(s) == [] || IsPySpace(RemoveUrls(s)[0])
  {
    if UrlAt(s, 0) {
      var rest := s[4 + WordLength(s[4..])..];
      if rest != [] {
        assert IsPySpace(rest[0]);
        assert RemoveUrls(rest) == [rest[0]] + RemoveUrls(rest[1..]);
      }
    }
  }

  /** A leading run of non-space characters of the result is the input's
      own: a removal is always followed by a space. */
  lemma {:induction false} RemoveUrlsKeptPrefix(s: string, k: nat)
    requires k <= |RemoveUrls(s)|
    requires forall j :: 0 <= j < k ==> !IsPySpace(RemoveUrls(s)[j])
    ensures k <= |s| && forall j :: 0 <= j < k ==> RemoveUrls(s)[j] == s[j]
    decreases |s|
  {
    if k > 0 {
      RemovalEndsAtSpace(s);
      if !UrlAt(s, 0) {
        var r' := RemoveUrls(s[1..]);
        assert RemoveUrls(s) == [s[0]] + r';
        assert forall j :: 0 <= j < k - 1 ==> r'[j] == RemoveUrls(s)[j + 1];
        RemoveUrlsKeptPrefix(s[1..], k - 1);
      }
    }
  }

  /** No URL is left after the removal. */
  lemma {:induction false} RemoveUrlsLeavesNoUrl(s: string)
    ensures NoUrl(RemoveUrls(s))
    decreases |s|
  {
    if s != [] {
      if UrlAt(s, 0) {
        RemoveUrlsLeavesNoUrl(s[4 + WordLength(s[4..])..]);
      } else {
        var r' := RemoveUrls(s[1..]);
        var r := RemoveUrls(s);
        assert r == [s[0]] + r';
        RemoveUrlsLeavesNoUrl(s[1..]);
        if |r'| >= 4 && forall j :: 0 <= j < 4 ==> !IsPySpace(r'[j]) {
          RemoveUrlsKeptPrefix(s[1..], 4);
        }
        assert !UrlAt(r, 0);
        forall i | 1 <= i < |r| ensures !UrlAt(r, i) {
          assert !UrlAt(r', i - 1);
        }
      }
    }
  }

  /** A text without URLs goes through unchanged. */
  lemma {:induction false} RemoveUrlsFixpoint(s: string)
    requires NoUrl(s)
    ensures RemoveUrls(s) == s
    decreases |s|
  {
    if s != [] {
      assert !UrlAt(s, 0);
      NoUrlSuffix(s, 1);
      RemoveUrlsFixpoint(s[1..]);
    }
  }

  function Control(c: char): char {
    if c == '\r' || c == '\n' || c == '\t' then ' ' else c
  }

  /** `.replace('\r', ' ').replace('\n', ' ').replace('\t', ' ')`. */
  function ReplaceControls(s: string): (r: string)
    ensures |r| == |s| && forall i :: 0 <= i < |s| ==> r[i] == Control(s[i])
  {
    seq(|s|, i requires 0 <= i < |s| => Control(s[i]))
  }

  /** After the replacement no `\r`, `\n` or `\t` is left, every other
      character is where it was, and replacing again changes nothing. */
  lemma ReplaceControlsClears(s: string)
    ensures var r := ReplaceControls(s);
      && (forall i :: 0 <= i < |r| ==> r[i] != '\r' && r[i] != '\n' && r[i] != '\t')
      && (forall i :: 0 <= i < |s| && s[i] != '\r' && s[i] != '\n' && s[i] != '\t' ==> r[i] == s[i])
      && ReplaceControls(r) == r
  {
  }

  /** `clean_input_text`: URLs removed, line breaks and tabs made spaces,
      whitespace runs collapsed to one space, and the ends stripped. */
  function CleanInputText(raw: string): string {
    Trim(CollapseSpaces(ReplaceControls(RemoveUrls(raw)), IsPySpace), IsPySpace)
  }

  /** Turning line breaks and tabs into spaces keeps the non-space text and
      makes no URL appear. */
  lemma {:induction false} ReplaceControlsKeepsText(s: string)
    ensures NonSpace(ReplaceControls(s), IsPySpace) == NonSpace(s, IsPySpace)
    ensures NoUrl(s) ==> NoUrl(ReplaceControls(s))
    decreases |s|
  {
    var r := ReplaceControls(s);
    if s != [] {
      ReplaceControlsKeepsText(s[1..]);
      assert r[1..] == ReplaceControls(s[1..]);
    }
    if NoUrl(s) {
      forall i | 0 <= i < |r| ensures !UrlAt(r, i) {
        assert !UrlAt(s, i);
      }
    }
  }

  /** A leading run of non-space characters of the collapse is the input's
      own. */
  lemma {:induction false} CollapseKeptPrefix(s: string, k: nat)
    requires k <= |CollapseSpaces(s, IsPySpace)|
    requires forall j :: 0 <= j < k ==> !IsPySpace(CollapseSpaces(s, IsPySpace)[j])
    ensures k <= |s| && forall j :: 0 <= j < k ==> CollapseSpaces(s, IsPySpace)[j] == s[j]
    decreases |s|
  {
    if k > 0 {
      CollapseEdges(s, IsPySpace);
      if !IsPySpace(s[0]) {
        var r' := CollapseSpaces(s[1..], IsPySpace);
        assert CollapseSpaces(s, IsPySpace) == [s[0]] + r';
        assert forall j :: 0 <= j < k - 1 ==> r'[j] == CollapseSpaces(s, IsPySpace)[j + 1];
        CollapseKeptPrefix(s[1..], k - 1);
      }
    }
  }

  /** A suffix of a text without URLs has none. */
  lemma NoUrlSuffix(s: string, a: nat)
    requires a <= |s| && NoUrl(s)
    ensures NoUrl(s[a..])
  {
    forall i | 0 <= i < |s[a..]| ensures !UrlAt(s[a..], i) {
      assert !UrlAt(s, a + i);
    }
  }

  /** Collapsing whitespace makes no URL appear. */
  lemma {:induction false} CollapseKeepsNoUrl(s: string)
    requires NoUrl(s)
    ensures NoUrl(CollapseSpaces(s, IsPySpace))
    decreases |s|
  {
    var r := CollapseSpaces(s, IsPySpace);
    if s != [] {
      if IsPySpace(s[0]) {
        var t := TrimStart(s[1..], IsPySpace);
        TrimStartIsSuffix(s[1..], IsPySpace);
        NoUrlSuffix(s, 1 + |s[1..]| - |t|);
        assert s[1 + |s[1..]| - |t|..] == t;
        CollapseKeepsNoUrl(t);
        var r' := CollapseSpaces(t, IsPySpace);
        assert r == " " + r';
        forall i | 0 <= i < |r| ensures !UrlAt(r, i) {
          if i > 0 {
            assert !UrlAt(r', i - 1);
          }
        }
      } else {
        NoUrlSuffix(s, 1);
        CollapseKeepsNoUrl(s[1..]);
        var r' := CollapseSpaces(s[1..], IsPySpace);
        assert r == [s[0]] + r';
        if |r'| >= 4 && forall j :: 0 <= j < 4 ==> !IsPySpace(r'[j]) {
          CollapseKeptPrefix(s[1..], 4);
          assert !UrlAt(s, 0);
        }
        assert !UrlAt(r, 0);
        forall i | 1 <= i < |r| ensures !UrlAt(r, i) {
          assert !UrlAt(r', i - 1);
        }
      }
    }
  }

  /** Stripping makes no URL appear. */
  lemma TrimKeepsNoUrl(s: string)
    requires NoUrl(s)
    ensures NoUrl(Trim(s, IsPySpace))
  {
    var u := TrimStart(s, IsPySpace);
    var r := Trim(s, IsPySpace);
    TrimStartIsSuffix(s, IsPySpace);
    TrimEndIsPrefix(u, IsPySpace);
    NoUrlSuffix(s, |s| - |u|);
    forall i | 0 <= i < |r| ensures !UrlAt(r, i) {
      assert !UrlAt(u, i);
    }
  }

  /** The cleaned text is one line: no whitespace at either end, single
      plain spaces between words, no URL, and every other character of the
      text without its URLs, in order. */
  lemma CleanInputTextShape(raw: string)
    ensures var r := CleanInputText(raw);
      && NoEdgeSpace(r, IsPySpace) && NoDoubleSpace(r, IsPySpace) && OnlyPlainSpaces(r, IsPySpace)
      && NoUrl(r)
      && NonSpace(r, IsPySpace) == NonSpace(RemoveUrls(raw), IsPySpace)
  {
    var u := RemoveUrls(raw);
    var c := ReplaceControls(u);
    var d := CollapseSpaces(c, IsPySpace);
    RemoveUrlsLeavesNoUrl(raw);
    ReplaceControlsKeepsText(u);
    CollapseShape(c, IsPySpace);
    CollapseKeepsText(c, IsPySpace);
    CollapseKeepsNoUrl(c);
    TrimShape(d, IsPySpace);
    TrimKeepsNoUrl(d);
  }

  /** Cleaning a cleaned text changes nothing. */
  lemma CleanInputTextIdempotent(raw: string)
    ensures CleanInputText(CleanInputText(raw)) == CleanInputText(raw)
  {
    var r := CleanInputText(raw);
    CleanInputTextShape(raw);
    RemoveUrlsFixpoint(r);
    ReplaceControlsFixpoint(r);
    CollapseFixpoint(r, IsPySpace);
    TrimUntrimmed(r, IsPySpace);
  }

  /** A text whose only whitespace is the plain space has no line break or
      tab to replace. */
  lemma ReplaceControlsFixpoint(s: string)
    requires OnlyPlainSpaces(s, IsPySpace)
    ensures ReplaceControls(s) == s
  {
    assert IsPySpace('\r') && IsPySpace('\n') && IsPySpace('\t');
    assert forall i :: 0 <= i < |s| ==> Control(s[i]) == s[i];
  }

  /** The endpoint's answer: a language, or an HTTP error status. */
  datatype Response = Identified(language: string) | HttpError(status: nat)

  const LabelPrefix: string := "__label__"

  /** fastText's top label for a text. */
  type Predictor = string -> string

  /** `identify_language`: 503 without a model, 400 when nothing is left
      after cleaning, otherwise the label of the cleaned text without
      `__label__`. */
  function IdentifyLanguage(model: Option<Predictor>, text: string): (r: Response)
    ensures r == HttpError(503) <==> model.None?
    ensures r == HttpError(400) <==> model.Some? && CleanInputText(text) == ""
    ensures r.Identified? <==> model.Some? && CleanInputText(text) != ""
  {
    if model.None? then HttpError(503)
    else
      var sanitized := CleanInputText(text);
      if sanitized == "" then HttpError(400)
      else Identified(ReplaceAll(model.value(sanitized), LabelPrefix, ""))
  }

  lemma {:induction false} ReplaceAllAbsent(s: string, pat: string, rep: string)
    requires pat != ""
    requires forall j :: 0 <= j <= |s| ==> !OccursAt(s, pat, j)
    ensures ReplaceAll(s, pat, rep) == s
    decreases |s|
  {
    if |s| >= |pat| {
      assert !OccursAt(s, pat, 0);
      forall j | 0 <= j <= |s[1..]| ensures !OccursAt(s[1..], pat, j) {
        assert !OccursAt(s, pat, j + 1);
        if j + |pat| <= |s[1..]| {
          assert s[1..][j..j + |pat|] == s[j + 1..j + 1 + |pat|];
        }
      }
      ReplaceAllAbsent(s[1..], pat, rep);
    }
  }

  /** A label `__label__<code>` is answered as `<code>`, and the model only
      ever sees the cleaned text. */
  lemma IdentifiedCode(predict: Predictor, text: string, code: string)
    requires CleanInputText(text) != ""
    requires predict(CleanInputText(text)) == LabelPrefix + code
    requires forall j :: 0 <= j <= |code| ==> !OccursAt(code, LabelPrefix, j)
    ensures IdentifyLanguage(Some(predict), text) == Identified(code)
  {
    var tagged := LabelPrefix + code;
    assert tagged[..|LabelPrefix|] == LabelPrefix;
    assert tagged[|LabelPrefix|..] == code;
    ReplaceAllAbsent(code, LabelPrefix, "");
  }

  /** The global `language_model`. */
  class IdentifierService {
    var languageModel: Option<Predictor>

    constructor()
      ensures languageModel.None?
    {
      languageModel := None;
    }

    /** `lifespan` before `yield`: the loaded model, or nothing when
        locating, downloading or loading it failed. */
    method Startup(loaded: Option<Predictor>)
      modifies this
      ensures languageModel == loaded
    {
      languageModel := loaded;
    }

    /** `lifespan` after `yield`. */
    method Shutdown()
      modifies this
      ensures languageModel.None?
    {
      languageModel := None;
    }

    /** `POST /identify` on the current model. */
    method Identify(text: string) returns (r: Response)
      ensures r == IdentifyLanguage(languageModel, text)
    {
      if languageModel.None? {
        return HttpError(503);
      }
      var sanitized := CleanInputText(text);
      if sanitized == "" {
        return HttpError(400);
      }
      r := Identified(ReplaceAll(languageModel.value(sanitized), LabelPrefix, ""));
    }
  }
}
