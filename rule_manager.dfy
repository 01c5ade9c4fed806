/** `RuleManager`: an ordered list of rules searched first-match, falling
    back to the last rule. `addRule` puts a rule at the front. */
module RuleManagement {
  import opened Wrappers
  import opened Paths
  import opened Rules
  import opened Sequences

  /** The list the manager holds when the constructor gets no list. */
  function DefaultRules(): seq<Rule> {
    [PelicanEggsRule(), DefaultRule()]
  }

  /** `rules.find(r => r.matches(authorRepo))` as an index. */
  function FirstMatch(rules: seq<Rule>, authorRepo: string): (r: Option<nat>)
    ensures r.Some? ==> r.value < |rules| && Matches(rules[r.value], authorRepo)
    ensures r.Some? ==> forall j :: 0 <= j < r.value ==> !Matches(rules[j], authorRepo)
    ensures r.None? ==> forall j :: 0 <= j < |rules| ==> !Matches(rules[j], authorRepo)
  {
    FirstIndex(rules, (rule: Rule) => Matches(rule, authorRepo))
  }

  /** `getRule`: the first rule that matches, else `rules[rules.length - 1]`,
      which is `undefined` (`None`) for an empty list. */
  function SelectRule(rules: seq<Rule>, authorRepo: string): (r: Option<Rule>)
    ensures r.None? <==> rules == []
    ensures r.Some? ==> r.value in rules
    ensures forall i :: 0 <= i < |rules| && Matches(rules[i], authorRepo)
                        && (forall j :: 0 <= j < i ==> !Matches(rules[j], authorRepo))
                        ==> r == Some(rules[i])
    ensures rules != [] && (forall j :: 0 <= j < |rules| ==> !Matches(rules[j], authorRepo))
            ==> r == Some(rules[|rules| - 1])
  {
    match FirstMatch(rules, authorRepo)
    case Some(i) => Some(rules[i])
    case None => if rules == [] then None else Some(rules[|rules| - 1])
  }

  /** `getEggType`: the selected rule's `getType`; with no rule at all the
      call on `undefined` throws a TypeError. */
  function EggType(rules: seq<Rule>, path: Path, authorRepo: string, repoName: Option<string>): Result<Option<string>> {
    match SelectRule(rules, authorRepo)
    case Some(rule) => Success(GetType(rule, path, repoName))
    case None => Failure("TypeError")
  }

  /** `getIgnorePatterns`: the selected rule's list; TypeError with no rule. */
  function IgnorePatterns(rules: seq<Rule>, authorRepo: string): Result<seq<string>> {
    match SelectRule(rules, authorRepo)
    case Some(rule) => Success(Rules.GetIgnorePatterns(rule))
    case None => Failure("TypeError")
  }

  class RuleManager {
    var rules: seq<Rule>

    /** `rules || [new PelicanEggsRule(), new DefaultRule()]`: any list the
        caller passes, even an empty one, replaces the defaults. */
    constructor(rules: Option<seq<Rule>>)
      ensures rules.Some? ==> this.rules == rules.value
      ensures rules.None? ==> this.rules == DefaultRules()
    {
      this.rules := if rules.Some? then rules.value else DefaultRules();
    }

    /** `addRule`: `unshift`, so the new rule is tried before all others. */
    method AddRule(rule: Rule)
      modifies this
      ensures rules == [rule] + old(rules)
    {
      rules := [rule] + rules;
    }

    function GetRule(authorRepo: string): Option<Rule>
      reads this
    {
      SelectRule(rules, authorRepo)
    }

    function GetEggType(path: Path, authorRepo: string, repoName: Option<string>): Result<Option<string>>
      reads this
    {
      EggType(rules, path, authorRepo, repoName)
    }

    function GetIgnorePatterns(authorRepo: string): Result<seq<string>>
      reads this
    {
      IgnorePatterns(rules, authorRepo)
    }
  }

  /** A rule added with `addRule` beats every rule already in the list for
      the authors it matches. */
  lemma AddedRuleWins(rules: seq<Rule>, rule: Rule, authorRepo: string)
    requires Matches(rule, authorRepo)
    ensures SelectRule([rule] + rules, authorRepo) == Some(rule)
  {
    var rs := [rule] + rules;
    assert Matches(rs[0], authorRepo);
  }

  /** For authors the new rule does not match, the selection among the old
      rules, fallback included, is unchanged. */
  lemma AddedRuleKeepsOthers(rules: seq<Rule>, rule: Rule, authorRepo: string)
    requires rules != [] && !Matches(rule, authorRepo)
    ensures SelectRule([rule] + rules, authorRepo) == SelectRule(rules, authorRepo)
  {
    var rs := [rule] + rules;
    match FirstMatch(rules, authorRepo)
    case Some(i) =>
      assert Matches(rs[i + 1], authorRepo);
      forall j | 0 <= j < i + 1 ensures !Matches(rs[j], authorRepo) {
        if j > 0 { assert rs[j] == rules[j - 1]; }
      }
    case None =>
      forall j | 0 <= j < |rs| ensures !Matches(rs[j], authorRepo) {
        if j > 0 { assert rs[j] == rules[j - 1]; }
      }
  }

  /** The type and the ignore list of an author come from one and the same
      rule of the list. */
  lemma TypeAndIgnoreFromSameRule(rules: seq<Rule>, path: Path, authorRepo: string, repoName: Option<string>)
    requires rules != []
    ensures (exists rule :: rule in rules
               && EggType(rules, path, authorRepo, repoName) == Success(GetType(rule, path, repoName))
               && IgnorePatterns(rules, authorRepo) == Success(rule.ignorePatterns))
  {
    var rule := SelectRule(rules, authorRepo).value;
    assert rule in rules;
  }

  /** With the default list `pelican-eggs` gets `PelicanEggsRule` and every
      other author `DefaultRule`. */
  lemma DefaultListResolution(authorRepo: string)
    ensures authorRepo == "pelican-eggs" ==> SelectRule(DefaultRules(), authorRepo) == Some(PelicanEggsRule())
    ensures authorRepo != "pelican-eggs" ==> SelectRule(DefaultRules(), authorRepo) == Some(DefaultRule())
  {
    var rs := DefaultRules();
    assert Matches(rs[1], authorRepo);
    if authorRepo == "pelican-eggs" {
      assert Matches(rs[0], authorRepo);
    }
  }

  /** An empty list given to the constructor is kept: every lookup then
      throws instead of falling back to the defaults. */
  lemma EmptyListThrows(path: Path, authorRepo: string, repoName: Option<string>)
    ensures EggType([], path, authorRepo, repoName).Failure?
    ensures IgnorePatterns([], authorRepo).Failure?
  {
  }
}
