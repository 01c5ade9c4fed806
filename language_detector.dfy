/** `LanguageDetector`: the client of the language-identification service.
    The HTTP call to `POST {apiUrl}/identify` is the parameter `api`: the
    `language` field of the answer, or `None` when the request fails. */
module LanguageDetection {
  import opened Wrappers
  import opened Text
  import opened Eggs

  datatype LanguageDetector = LanguageDetector(apiUrl: string, fallbackLanguage: string)

  const DefaultApiUrl: string := "http://localhost:8000"
  const DefaultFallbackLanguage: string := "en"

  /** The constructor: an argument that is not given takes its default; the
      URL's default is the environment's `GLOTLID_API_URL` when that is set
      and not empty. */
  function NewLanguageDetector(apiUrl: Option<string>, fallbackLanguage: Option<string>, env: Option<string>): (d: LanguageDetector)
    ensures apiUrl.Some? ==> d.apiUrl == apiUrl.value
    ensures apiUrl.None? && env.Some? && env.value != "" ==> d.apiUrl == env.value
    ensures apiUrl.None? && (env.None? || env.value == "") ==> d.apiUrl == DefaultApiUrl
    ensures d.fallbackLanguage == fallbackLanguage.GetOr(DefaultFallbackLanguage)
  {
    var url := if apiUrl.Some? then apiUrl.value
               else if env.Some? && env.value != "" then env.value
               else DefaultApiUrl;
    LanguageDetector(url, fallbackLanguage.GetOr(DefaultFallbackLanguage))
  }

  /** An empty `GLOTLID_API_URL` counts as unset, and a detector built
      without a fallback answers `en` for short text and when the service
      fails. */
  lemma DetectorDefaults(apiUrl: Option<string>, fallbackLanguage: Option<string>, env: Option<string>,
                         text: string, api: string -> Option<string>)
    ensures NewLanguageDetector(apiUrl, fallbackLanguage, Some("")) == NewLanguageDetector(apiUrl, fallbackLanguage, None)
    ensures TooShort(text) || api(text).None? ==>
      Detect(NewLanguageDetector(apiUrl, None, env), text, api) == DefaultFallbackLanguage
  {
  }

  /** Text shorter than ten UTF-16 units once trimmed is not worth a
      request. */
  predicate TooShort(text: string) {
    Utf16Length(Trim(text, IsJsSpace)) < 10
  }

  /** `detect(text)`: the fallback for short text and when the request
      fails, otherwise the service's answer as it is (not normalised). */
  function Detect(d: LanguageDetector, text: string, api: string -> Option<string>): (r: string)
    ensures r == d.fallbackLanguage || (!TooShort(text) && api(text) == Some(r))
  {
    if TooShort(text) then d.fallbackLanguage
    else api(text).GetOr(d.fallbackLanguage)
  }

  /** Short text never reaches the service: any two services give the same
      answer, the fallback. */
  lemma ShortTextSkipsService(d: LanguageDetector, text: string, api1: string -> Option<string>, api2: string -> Option<string>)
    requires TooShort(text)
    ensures Detect(d, text, api1) == Detect(d, text, api2) == d.fallbackLanguage
  {
  }

  /** For long enough text, the answer is the service's when it answers and
      the fallback when it fails. */
  lemma LongTextAsksService(d: LanguageDetector, text: string, api: string -> Option<string>)
    requires !TooShort(text)
    ensures api(text).Some? ==> Detect(d, text, api) == api(text).value
    ensures api(text).None? ==> Detect(d, text, api) == d.fallbackLanguage
  {
  }

  /** `text && text.trim().length > 0`. */
  predicate NonBlank(text: string) {
    |Trim(text, IsJsSpace)| > 0
  }

  /** `texts.filter(text => text && text.trim().length > 0)`. */
  function KeepNonBlank(texts: seq<string>): (r: seq<string>)
    ensures |r| <= |texts|
    ensures forall t :: t in r <==> t in texts && NonBlank(t)
    ensures r == [] <==> forall i :: 0 <= i < |texts| ==> !NonBlank(texts[i])
  {
    if texts == [] then []
    else
      var rest := KeepNonBlank(texts[1..]);
      assert forall t :: t in texts <==> t == texts[0] || t in texts[1..];
      if NonBlank(texts[0]) then [texts[0]] + rest else rest
  }

  /** The filter keeps the order: filtering a concatenation concatenates
      the filtered parts. */
  lemma {:induction false} KeepNonBlankAppend(a: seq<string>, b: seq<string>)
    ensures KeepNonBlank(a + b) == KeepNonBlank(a) + KeepNonBlank(b)
    decreases |a|
  {
    if a == [] {
      assert a + b == b;
    } else {
      assert (a + b)[1..] == a[1..] + b;
      KeepNonBlankAppend(a[1..], b);
    }
  }

  /** The text `detectFromMultiple` sends: the non-blank texts joined with
      one space. */
  function CombineTexts(texts: seq<string>): string {
    Join(KeepNonBlank(texts), " ")
  }

  /** `detectFromMultiple(texts)`. */
  function DetectFromMultiple(d: LanguageDetector, texts: seq<string>, api: string -> Option<string>): string {
    Detect(d, CombineTexts(texts), api)
  }

  /** Blank texts add nothing: with only blank texts the combined text is
      empty and the fallback is returned without a request. */
  lemma AllBlankGivesFallback(d: LanguageDetector, texts: seq<string>, api: string -> Option<string>)
    requires forall i :: 0 <= i < |texts| ==> !NonBlank(texts[i])
    ensures CombineTexts(texts) == ""
    ensures DetectFromMultiple(d, texts, api) == d.fallbackLanguage
  {
    assert Trim("", IsJsSpace) == "";
  }

  /** A single non-blank text is sent as it is. */
  lemma SingleTextSentAsIs(d: LanguageDetector, text: string, api: string -> Option<string>)
    requires NonBlank(text)
    ensures CombineTexts([text]) == text
  {
    assert [text][1..] == [];
  }

  /** The texts a variable contributes: its description, then its name, each
      only when truthy. */
  function VariableTexts(v: Variable): (r: seq<string>)
    ensures |r| <= 2
  {
    (if Truthy(v.description) then [v.description.text] else [])
    + (if Truthy(v.name) then [v.name.text] else [])
  }

  /** The texts of a list of variables, in list order. */
  function AllVariableTexts(vs: seq<Variable>): seq<string>
    decreases |vs|
  {
    if vs == [] then [] else AllVariableTexts(vs[..|vs| - 1]) + VariableTexts(vs[|vs| - 1])
  }

  /** The description, twice, when truthy. */
  function DescriptionTexts(config: EggConfig): seq<string> {
    if Truthy(config.description) then [config.description.text, config.description.text] else []
  }

  /** What `detectFromEgg` collects: the description twice, then each
      variable's description and name, and the egg's name only when nothing
      else was collected. */
  function EggTexts(config: EggConfig): seq<string> {
    var collected := DescriptionTexts(config)
      + (if config.variables.Some? then AllVariableTexts(config.variables.value) else []);
    if collected == [] && Truthy(config.name) then [config.name.text] else collected
  }

  /** `detectFromEgg`'s loop over `texts.push`. */
  method CollectTexts(config: EggConfig) returns (texts: seq<string>)
    ensures texts == EggTexts(config)
  {
    texts := [];
    if Truthy(config.description) {
      texts := texts + [config.description.text];
      texts := texts + [config.description.text];
    }
    if config.variables.Some? {
      var vs := config.variables.value;
      var i := 0;
      while i < |vs|
        invariant 0 <= i <= |vs|
        invariant texts == DescriptionTexts(config) + AllVariableTexts(vs[..i])
      {
        var v := vs[i];
        assert vs[..i + 1][..i] == vs[..i];
        if Truthy(v.description) {
          texts := texts + [v.description.text];
        }
        if Truthy(v.name) {
          texts := texts + [v.name.text];
        }
        i := i + 1;
      }
      assert vs[..i] == vs;
    }
    if |texts| == 0 && Truthy(config.name) {
      texts := texts + [config.name.text];
    }
  }

  /** `detectFromEgg(config)`. */
  method DetectFromEgg(d: LanguageDetector, config: EggConfig, api: string -> Option<string>) returns (language: string)
    ensures language == DetectFromMultiple(d, EggTexts(config), api)
  {
    var texts := CollectTexts(config);
    language := Detect(d, Join(KeepNonBlank(texts), " "), api);
  }

  /** A truthy description leads the collected texts, twice. */
  lemma DescriptionComesFirstTwice(config: EggConfig)
    requires Truthy(config.description)
    ensures |EggTexts(config)| >= 2
    ensures EggTexts(config)[0] == EggTexts(config)[1] == config.description.text
  {
  }

  /** The variables contribute in list order: those of a longer list extend
      those of its prefix. */
  lemma {:induction false} VariableTextsInOrder(vs: seq<Variable>, ws: seq<Variable>)
    ensures AllVariableTexts(vs + ws) == AllVariableTexts(vs) + AllVariableTexts(ws)
    decreases |ws|
  {
    if ws == [] {
      assert vs + ws == vs;
    } else {
      var init := ws[..|ws| - 1];
      VariableTextsInOrder(vs, init);
      assert (vs + ws)[..|vs + ws| - 1] == vs + init;
      assert (vs + ws)[|vs + ws| - 1] == ws[|ws| - 1];
    }
  }

  /** The egg's name is used when, and only when, the description and
      every variable field are falsy: then it is the only text; otherwise
      the texts are the description's and the variables' alone. */
  lemma NameOnlyAsLastResort(config: EggConfig)
    ensures Truthy(config.name) && !Truthy(config.description)
            && (config.variables.Some? ==> NoVariableText(config.variables.value))
            ==> EggTexts(config) == [config.name.text]
    ensures Truthy(config.description) || (config.variables.Some? && !NoVariableText(config.variables.value))
            ==> EggTexts(config) == DescriptionTexts(config)
                  + (if config.variables.Some? then AllVariableTexts(config.variables.value) else [])
  {
    if config.variables.Some? {
      NoVariableTextExactly(config.variables.value);
    }
  }

  /** No variable has a truthy description or name. */
  predicate NoVariableText(vs: seq<Variable>) {
    forall i :: 0 <= i < |vs| ==> !Truthy(vs[i].description) && !Truthy(vs[i].name)
  }

  lemma {:induction false} NoVariableTextExactly(vs: seq<Variable>)
    ensures AllVariableTexts(vs) == [] <==> NoVariableText(vs)
    decreases |vs|
  {
    if vs != [] {
      var init := vs[..|vs| - 1];
      NoVariableTextExactly(init);
      if NoVariableText(vs) {
        assert NoVariableText(init) by {
          forall i | 0 <= i < |init| ensures !Truthy(init[i].description) && !Truthy(init[i].name) {
            assert init[i] == vs[i];
          }
        }
      }
    }
  }

  /** An egg with no truthy text at all is given the fallback without a
      request. */
  lemma EmptyEggGetsFallback(d: LanguageDetector, config: EggConfig, api: string -> Option<string>)
    requires !Truthy(config.description) && !Truthy(config.name)
    requires config.variables.Some? ==> NoVariableText(config.variables.value)
    ensures DetectFromMultiple(d, EggTexts(config), api) == d.fallbackLanguage
  {
    if config.variables.Some? {
      NoVariableTextExactly(config.variables.value);
    }
    assert EggTexts(config) == [];
    AllBlankGivesFallback(d, [], api);
  }
}
