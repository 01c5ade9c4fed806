/** `normalizeWithFallback`: the normalised code looked up in the manual
    map `{ und: 'en' }` of `LanguageCodeNormalizer`. */
module LanguageFallback {
  import opened Wrappers
  import opened LanguageCodes

  /** What a property lookup on a plain object literal can find: an own
      property, or a member inherited from `Object.prototype`. */
  datatype Lookup = Own(value: string) | Inherited(member: string)

  /** The members every object literal inherits (all truthy). */
  const PrototypeMembers: set<string> := {
    "constructor", "__proto__", "hasOwnProperty", "isPrototypeOf",
    "propertyIsEnumerable", "toLocaleString", "toString", "valueOf",
    "__defineGetter__", "__defineSetter__", "__lookupGetter__", "__lookupSetter__"}

  /** `MANUAL_LANGUAGE_MAP[key]` as written: `{ und: 'en' }` plus the
      prototype chain. */
  function ManualMapLookup(key: string): Option<Lookup> {
    if key == "und" then Some(Own("en"))
    else if key in PrototypeMembers then Some(Inherited(key))
    else None
  }

  /** What `normalizeWithFallback` can return as written: a string, or a
      non-string value found on the prototype. */
  datatype FallbackValue = Code(code: string) | PrototypeValue(member: string)

  /** `normalizeWithFallback` as written: a truthy lookup result wins, so an
      inherited member is returned in place of the code. */
  function NormalizeWithFallbackAsWritten(code: Option<string>, parse: string -> Option<string>): Option<FallbackValue> {
    if code.None? || code.value == "" then None
    else
      var normalized := NormalizeLanguageCode(code, parse);
      var key := if normalized.Some? then normalized.value else "null";
      match ManualMapLookup(key)
      case Some(Own(v)) => Some(Code(v))
      case Some(Inherited(m)) => Some(PrototypeValue(m))
      case None => if normalized.Some? then Some(Code(normalized.value)) else None
  }

  /** An input the tag parser rejects and whose head is not three letters
      long is returned unchanged; when it names a prototype member, the
      lookup finds that member and returns it instead of a string. */
  lemma AsWrittenReturnsNonString(parse: string -> Option<string>)
    requires parse("constructor") == None
    ensures NormalizeWithFallbackAsWritten(Some("constructor"), parse) == Some(PrototypeValue("constructor"))
  {
    ConstructorIsKeptAsIs(parse);
  }

  /** `normalizeWithFallback` with an own-property lookup: `und` becomes
      `en`, and every other result of the normaliser is returned as is. */
  function NormalizeWithFallback(code: Option<string>, parse: string -> Option<string>): (r: Option<string>)
    ensures r.None? <==> code.None? || code.value == ""
    ensures r.Some? && r.value != "en" ==> r == NormalizeLanguageCode(code, parse)
    ensures NormalizeLanguageCode(code, parse) == Some("und") ==> r == Some("en")
  {
    if code.None? || code.value == "" then None
    else
      var normalized := NormalizeLanguageCode(code, parse);
      if normalized == Some("und") then Some("en") else normalized
  }

  /** The two agree on every input that does not name a prototype member. */
  lemma CorrectedAgreesOffPrototype(code: Option<string>, parse: string -> Option<string>)
    requires var n := NormalizeLanguageCode(code, parse); n.None? || n.value !in PrototypeMembers
    ensures NormalizeWithFallbackAsWritten(code, parse) ==
      (match NormalizeWithFallback(code, parse)
       case None => None
       case Some(c) => Some(Code(c)))
  {
  }
}
