/** `LanguageCodeNormalizer`: detector tags such as `eng_Latn` become ISO 639-1
    codes such as `en`. The BCP 47 parse of `Intl.Locale` (RFC 5646, section
    2.1) is the parameter `parse`: the language subtag of a well-formed tag,
    or `None` where the constructor throws a RangeError. */
module LanguageCodes {
  import opened Wrappers
  import opened Text

  /** `/^[a-z]{2}$/.test(s)`. */
  predicate IsTwoLowerLetters(s: string) {
    |s| == 2 && IsLowerAsciiLetter(s[0]) && IsLowerAsciiLetter(s[1])
  }

  /** The text before the first character that `stop` accepts. */
  function TakeUntil(s: string, stop: char -> bool): (r: string)
    ensures StartsWith(s, r)
    ensures forall i :: 0 <= i < |r| ==> !stop(r[i])
    ensures r == s || stop(s[|r|])
  {
    if s == [] || stop(s[0]) then ""
    else [s[0]] + TakeUntil(s[1..], stop)
  }

  predicate IsUnderscoreOrHyphen(c: char) {
    c == '_' || c == '-'
  }

  /** `input.trim().toLowerCase()`. */
  function CleanCode(s: string): string {
    AsciiLower(Trim(s, IsJsSpace))
  }

  /** `cleanCode.replace('_', '-')`: the BCP 47 form of the tag. */
  function FormatTag(clean: string): string {
    ReplaceFirst(clean, "_", "-")
  }

  /** `input.split(/[_-]/)[0].toLowerCase()`. */
  function BaseCode(s: string): string {
    AsciiLower(TakeUntil(s, IsUnderscoreOrHyphen))
  }

  /** `normalizeLanguageCode(input)`; `None` is `null`. */
  function NormalizeLanguageCode(input: Option<string>, parse: string -> Option<string>): Option<string> {
    if input.None? || input.value == "" then None
    else
      var clean := CleanCode(input.value);
      if IsTwoLowerLetters(clean) then Some(clean)
      else
        match parse(FormatTag(clean))
        case Some(language) => Some(language)
        case None =>
          var base := BaseCode(input.value);
          if Utf16Length(base) == 3 then Some(parse(base).GetOr(base))
          else Some(input.value)
  }

  /** `null` and `""` give `null`; every other input gives a string. */
  lemma NullOnlyForEmpty(input: Option<string>, parse: string -> Option<string>)
    ensures NormalizeLanguageCode(input, parse).None? <==> input.None? || input.value == ""
  {
  }

  /** A code that is two letters once trimmed and lower-cased is returned in
      that form, and the parser is not consulted. */
  lemma TwoLetterShortcut(s: string, parse1: string -> Option<string>, parse2: string -> Option<string>)
    requires s != "" && IsTwoLowerLetters(CleanCode(s))
    ensures NormalizeLanguageCode(Some(s), parse1) == Some(CleanCode(s))
    ensures NormalizeLanguageCode(Some(s), parse1) == NormalizeLanguageCode(Some(s), parse2)
  {
  }

  /** Trimming and lower-casing leave a string without whitespace at its
      ends and without capitals as it is. */
  lemma CleanCodeOfClean(s: string)
    requires s != [] && !IsJsSpace(s[0]) && !IsJsSpace(s[|s| - 1])
    requires forall i :: 0 <= i < |s| ==> !('A' <= s[i] <= 'Z')
    ensures CleanCode(s) == s
  {
    assert TrimStart(s, IsJsSpace) == s;
    assert TrimEnd(s, IsJsSpace) == s;
    assert Trim(s, IsJsSpace) == s;
    assert AsciiLower(s) == s;
  }

  /** A two-letter lower-case result is a fixpoint: normalising it again
      gives it back. */
  lemma TwoLetterResultIsFixpoint(s: string, parse: string -> Option<string>)
    requires IsTwoLowerLetters(s)
    ensures NormalizeLanguageCode(Some(s), parse) == Some(s)
  {
    assert !IsJsSpace(s[0]) && !IsJsSpace(s[1]);
    CleanCodeOfClean(s);
  }

  /** When the tag parses, its language subtag is the answer; when neither
      the tag nor the head of three UTF-16 units parses, the head (or the
      input itself, for a head of another length) is returned. */
  lemma ParseFallbacks(s: string, parse: string -> Option<string>)
    requires s != "" && !IsTwoLowerLetters(CleanCode(s))
    ensures var tag := FormatTag(CleanCode(s));
      var base := BaseCode(s);
      && (parse(tag).Some? ==> NormalizeLanguageCode(Some(s), parse) == parse(tag))
      && (parse(tag).None? && Utf16Length(base) == 3 && parse(base).None? ==> NormalizeLanguageCode(Some(s), parse) == Some(base))
      && (parse(tag).None? && Utf16Length(base) == 3 && parse(base).Some? ==> NormalizeLanguageCode(Some(s), parse) == parse(base))
      && (parse(tag).None? && Utf16Length(base) != 3 ==> NormalizeLanguageCode(Some(s), parse) == Some(s))
  {
  }

  /** `replace('_', '-')` turns the first `_` into `-` and keeps the rest,
      later underscores included. */
  lemma {:induction false} FormatTagReplacesFirstUnderscore(s: string, i: nat)
    requires i < |s| && s[i] == '_' && '_' !in s[..i]
    ensures FormatTag(s) == s[..i] + "-" + s[i + 1..]
  {
    assert OccursAt(s, "_", i);
    forall j | 0 <= j < i
      ensures !OccursAt(s, "_", j)
    {
      assert s[j] == s[..i][j];
    }
  }

  /** Only the first `_` becomes `-`: `a_b_c` is parsed as `a-b_c`. */
  lemma OnlyFirstUnderscoreReplaced()
    ensures FormatTag("a_b_c") == "a-b_c"
  {
    var s := "a_b_c";
    assert s[1] == '_' && s[..1] == "a";
    FormatTagReplacesFirstUnderscore(s, 1);
    assert s[2..] == "b_c";
  }

  /** A code without `_` is parsed as it is. */
  lemma NoUnderscoreTag(s: string)
    requires '_' !in s
    ensures FormatTag(s) == s
  {
    forall j | 0 <= j <= |s| ensures !OccursAt(s, "_", j) {
      if j < |s| { assert s[j] != '_'; }
    }
  }

  predicate AllLowerLetters(s: string) {
    forall i :: 0 <= i < |s| ==> 'a' <= s[i] <= 'z'
  }

  /** A detector tag is a three-letter language, `_` and a capitalised
      script: lower-casing touches only the script's capital. */
  lemma DetectorTagLowered(lang: string, script: string)
    requires |lang| == 3 && |script| == 3 && AllLowerLetters(lang) && AllLowerLetters(script)
    ensures CleanCode(lang + "_L" + script) == lang + "_l" + script
  {
    var code := lang + "_L" + script;
    var lower := lang + "_l" + script;
    assert code[0] == lang[0] && code[7] == script[2];
    assert !IsJsSpace(code[0]) && !IsJsSpace(code[7]);
    assert TrimStart(code, IsJsSpace) == code;
    assert TrimEnd(code, IsJsSpace) == code;
    assert Trim(code, IsJsSpace) == code;
    forall i | 0 <= i < 8 ensures LowerChar(code[i]) == lower[i] {
      if i < 3 {
        assert code[i] == lang[i] == lower[i];
      } else if i > 4 {
        assert code[i] == script[i - 5] == lower[i];
      }
    }
    assert AsciiLower(code) == lower;
  }

  /** ... and is then read as the tag `<language>-l<script>`. */
  lemma DetectorTag(lang: string, script: string)
    requires |lang| == 3 && |script| == 3 && AllLowerLetters(lang) && AllLowerLetters(script)
    ensures FormatTag(CleanCode(lang + "_L" + script)) == lang + "-l" + script
  {
    DetectorTagLowered(lang, script);
    var lower := lang + "_l" + script;
    NoUnderscoreInLetters(lang);
    ThreeLetterSplit(lang, "l" + script);
    FormatTagReplacesFirstUnderscore(lower, 3);
  }

  lemma NoUnderscoreInLetters(s: string)
    requires AllLowerLetters(s)
    ensures '_' !in s
  {
    forall i | 0 <= i < |s| ensures s[i] != '_' {
      assert 'a' <= s[i] <= 'z';
    }
  }

  lemma ThreeLetterSplit(lang: string, rest: string)
    requires |lang| == 3
    ensures var t := lang + "_" + rest;
      t[3] == '_' && t[..3] == lang && t[4..] == rest
  {
    var t := lang + "_" + rest;
    assert t[..3] == lang;
    assert t[4..] == rest;
  }

  /** The detector's Latin-script answers, such as `eng_Latn` and
      `por_Latn`, are read as the tag `<lang>-latn`, and a tag that parses
      gives its language subtag. */
  lemma LatnTag(lang: string, parse: string -> Option<string>)
    requires |lang| == 3 && AllLowerLetters(lang)
    ensures FormatTag(CleanCode(lang + "_Latn")) == lang + "-latn"
    ensures parse(lang + "-latn").Some? ==>
      NormalizeLanguageCode(Some(lang + "_Latn"), parse) == parse(lang + "-latn")
  {
    assert AllLowerLetters("atn");
    DetectorTag(lang, "atn");
    assert lang + "_L" + "atn" == lang + "_Latn";
    assert lang + "-l" + "atn" == lang + "-latn";
    assert |CleanCode(lang + "_Latn")| == 8;
    ParseFallbacks(lang + "_Latn", parse);
  }

  /** The documented examples, for a parser that reads `eng` as `en` and
      `por` as `pt` as the language subtag of a BCP 47 tag. */
  lemma DocumentedExamples(parse: string -> Option<string>)
    requires parse("eng-latn") == Some("en") && parse("por-latn") == Some("pt")
    ensures NormalizeLanguageCode(Some("eng_Latn"), parse) == Some("en")
    ensures NormalizeLanguageCode(Some("por_Latn"), parse) == Some("pt")
    ensures NormalizeLanguageCode(Some("en"), parse) == Some("en")
  {
    EngLatn(parse);
    PorLatn(parse);
    TwoLetterResultIsFixpoint("en", parse);
  }

  lemma EngLatn(parse: string -> Option<string>)
    ensures parse("eng-latn").Some? ==> NormalizeLanguageCode(Some("eng_Latn"), parse) == parse("eng-latn")
  {
    assert "eng" + "_Latn" == "eng_Latn" && "eng" + "-latn" == "eng-latn";
    assert AllLowerLetters("eng");
    LatnTag("eng", parse);
  }

  lemma PorLatn(parse: string -> Option<string>)
    ensures parse("por-latn").Some? ==> NormalizeLanguageCode(Some("por_Latn"), parse) == parse("por-latn")
  {
    assert "por" + "_Latn" == "por_Latn" && "por" + "-latn" == "por-latn";
    assert AllLowerLetters("por");
    LatnTag("por", parse);
  }

  /** `normalizeLanguageCodes`: map, then drop the `null`s. */
  function NormalizeLanguageCodes(codes: seq<string>, parse: string -> Option<string>): (r: seq<string>)
    ensures |r| <= |codes|
  {
    if codes == [] then []
    else
      match NormalizeLanguageCode(Some(codes[0]), parse)
      case Some(c) => [c] + NormalizeLanguageCodes(codes[1..], parse)
      case None => NormalizeLanguageCodes(codes[1..], parse)
  }

  function CountNonEmpty(codes: seq<string>): nat {
    if codes == [] then 0 else (if codes[0] != "" then 1 else 0) + CountNonEmpty(codes[1..])
  }

  /** Only the empty codes are dropped, and the rest keep their order: the
      list normaliser is the single one applied to each non-empty code. */
  lemma {:induction false} NormalizeLanguageCodesDropsOnlyEmpty(codes: seq<string>, parse: string -> Option<string>)
    ensures |NormalizeLanguageCodes(codes, parse)| == CountNonEmpty(codes)
    ensures forall i :: 0 <= i < |codes| && codes[i] != "" ==>
      NormalizeLanguageCode(Some(codes[i]), parse).value in NormalizeLanguageCodes(codes, parse)
    decreases |codes|
  {
    if codes != [] {
      NormalizeLanguageCodesDropsOnlyEmpty(codes[1..], parse);
      NormalizeLanguageCodesCons(codes, parse);
      forall i | 1 <= i < |codes| && codes[i] != ""
        ensures NormalizeLanguageCode(Some(codes[i]), parse).value in NormalizeLanguageCodes(codes, parse)
      {
        assert codes[i] == codes[1..][i - 1];
      }
    }
  }

  /** The first code contributes its normal form exactly when it is not
      empty. */
  lemma NormalizeLanguageCodesCons(codes: seq<string>, parse: string -> Option<string>)
    requires codes != []
    ensures NormalizeLanguageCodes(codes, parse) ==
      (if codes[0] != "" then [NormalizeLanguageCode(Some(codes[0]), parse).value] else [])
      + NormalizeLanguageCodes(codes[1..], parse)
  {
    NullOnlyForEmpty(Some(codes[0]), parse);
  }

  /** `isISO6391(code)`: two ASCII letters, of either case. */
  predicate IsISO6391(code: string) {
    IsTwoLowerLetters(AsciiLower(code))
  }

  lemma IsISO6391Exactly(code: string)
    ensures IsISO6391(code) <==>
      |code| == 2 && forall i :: 0 <= i < 2 ==> ('a' <= code[i] <= 'z' || 'A' <= code[i] <= 'Z')
  {
    if |code| == 2 {
      var l := AsciiLower(code);
      assert l[0] == LowerChar(code[0]) && l[1] == LowerChar(code[1]);
    }
  }

  /** `constructor` is no tag and its head is not three letters long, so
      a parser that rejects it leaves it as it is. */
  lemma ConstructorIsKeptAsIs(parse: string -> Option<string>)
    requires parse("constructor") == None
    ensures NormalizeLanguageCode(Some("constructor"), parse) == Some("constructor")
  {
    var s := "constructor";
    assert forall i :: 0 <= i < |s| ==> 'a' <= s[i] <= 'z';
    CleanCodeOfClean(s);
    NoUnderscoreTag(s);
    TakeUntilNone(s, IsUnderscoreOrHyphen);
    assert BaseCode(s) == s by {
      assert AsciiLower(s) == s;
    }
  }

  lemma {:induction false} TakeUntilNone(s: string, stop: char -> bool)
    requires forall i :: 0 <= i < |s| ==> !stop(s[i])
    ensures TakeUntil(s, stop) == s
    decreases |s|
  {
    if s != [] {
      TakeUntilNone(s[1..], stop);
    }
  }

}
