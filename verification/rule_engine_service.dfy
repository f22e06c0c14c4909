/**
 * The rule service of a project: all rules, built-in rules, custom rules and
 * lookups by id, category and severity. The project's base path is optional;
 * its custom rules live in `.securecode/rules` under it.
 */
module RuleEngineService {
  import opened Wrappers
  import opened Rules
  import opened Seqs
  import opened Strings
  import opened RuleLoader

  /** `Paths.get(basePath, ".securecode", "rules")`. */
  function CustomRulesDir(basePath: string): string {
    PathJoin(PathJoin(basePath, ".securecode"), "rules")
  }

  /** The custom rules folder, when the project has a base path. */
  function CustomRulesPath(basePath: Option<string>): (path: Option<string>)
    ensures path.Some? <==> basePath.Some?
  {
    match basePath
    case None => None
    case Some(base) => Some(CustomRulesDir(base))
  }

  /** `getAllRules`: the enabled built-in and custom rules. */
  function GetAllRules(sources: RuleSources, basePath: Option<string>): (rules: seq<Rule>)
    ensures forall i :: 0 <= i < |rules| ==> rules[i].enabled
  {
    AllRules(sources, CustomRulesPath(basePath))
  }

  /** Without a base path there is no custom folder: only the enabled built-in rules. */
  lemma GetAllRulesWithoutBasePath(sources: RuleSources)
    ensures GetAllRules(sources, None) == Filter(BuiltInRules(sources), Enabled)
  {
    AllRulesOrder(sources, None);
  }

  /** With a base path, the enabled built-in rules come first, then the enabled rules of its custom folder. */
  lemma GetAllRulesWithBasePath(sources: RuleSources, basePath: string)
    ensures GetAllRules(sources, Some(basePath))
      == Filter(BuiltInRules(sources), Enabled) + Filter(CustomRules(sources, CustomRulesDir(basePath)), Enabled)
  {
    AllRulesOrder(sources, Some(CustomRulesDir(basePath)));
  }

  /** `getBuiltInRules`: the catalogue's rules, at most ten, disabled ones included. */
  function GetBuiltInRules(sources: RuleSources): (rules: seq<Rule>)
    ensures |rules| <= 10
  {
    BuiltInRulesAtMostTen(sources);
    BuiltInRules(sources)
  }

  /** `getCustomRules`: none without a base path, otherwise the rules of its custom folder, disabled ones included. */
  function GetCustomRules(sources: RuleSources, basePath: Option<string>): (rules: seq<Rule>)
    ensures basePath.None? ==> rules == []
  {
    match basePath
    case None => []
    case Some(base) => CustomRules(sources, CustomRulesDir(base))
  }

  /** Every rule `getCustomRules` returns is marked custom. */
  lemma GetCustomRulesAreCustom(sources: RuleSources, basePath: Option<string>)
    ensures forall i :: 0 <= i < |GetCustomRules(sources, basePath)| ==> GetCustomRules(sources, basePath)[i].custom
  {
    if basePath.Some? {
      forall i | 0 <= i < |GetCustomRules(sources, basePath)|
        ensures GetCustomRules(sources, basePath)[i].custom
      {
        CustomRulesProvenance(sources, CustomRulesDir(basePath.value), i);
      }
    }
  }

  function HasId(id: string): Rule -> bool {
    (rule: Rule) => rule.id == id
  }

  /** `getRuleById`: the first rule with that id, or none when no rule has it. */
  function GetRuleById(sources: RuleSources, basePath: Option<string>, id: string): (found: Option<Rule>)
    ensures var rules := GetAllRules(sources, basePath);
            && (found.None? <==> forall i :: 0 <= i < |rules| ==> rules[i].id != id)
            && (found.Some? ==> exists k :: 0 <= k < |rules| && rules[k] == found.value && found.value.id == id
                                              && forall i :: 0 <= i < k ==> rules[i].id != id)
  {
    Find(GetAllRules(sources, basePath), HasId(id))
  }

  function InCategory(category: RuleCategory): Rule -> bool {
    (rule: Rule) => rule.category == category
  }

  function OfSeverity(severity: Severity): Rule -> bool {
    (rule: Rule) => rule.severity == severity
  }

  /** `getRulesByCategory`: the rules of that category, in their original order. */
  function GetRulesByCategory(sources: RuleSources, basePath: Option<string>, category: RuleCategory): (rules: seq<Rule>)
    ensures forall i :: 0 <= i < |rules| ==> rules[i].category == category
  {
    Filter(GetAllRules(sources, basePath), InCategory(category))
  }

  /** `getRulesBySeverity`: the rules of that severity, in their original order. */
  function GetRulesBySeverity(sources: RuleSources, basePath: Option<string>, severity: Severity): (rules: seq<Rule>)
    ensures forall i :: 0 <= i < |rules| ==> rules[i].severity == severity
  {
    Filter(GetAllRules(sources, basePath), OfSeverity(severity))
  }

  /** Exactly the rules of the category are kept, each as often as among all rules. */
  lemma RulesByCategoryExact(sources: RuleSources, basePath: Option<string>, category: RuleCategory, rule: Rule)
    ensures multiset(GetRulesByCategory(sources, basePath, category))[rule]
         == if rule.category == category then multiset(GetAllRules(sources, basePath))[rule] else 0
  {
    FilterCount(GetAllRules(sources, basePath), InCategory(category), rule);
  }

  /** Exactly the rules of the severity are kept, each as often as among all rules. */
  lemma RulesBySeverityExact(sources: RuleSources, basePath: Option<string>, severity: Severity, rule: Rule)
    ensures multiset(GetRulesBySeverity(sources, basePath, severity))[rule]
         == if rule.severity == severity then multiset(GetAllRules(sources, basePath))[rule] else 0
  {
    FilterCount(GetAllRules(sources, basePath), OfSeverity(severity), rule);
  }

  /** The rules of a category: the enabled built-in ones first, then the enabled custom ones, each in loading order. */
  lemma RulesByCategoryOrder(sources: RuleSources, basePath: string, category: RuleCategory)
    ensures GetRulesByCategory(sources, Some(basePath), category)
      == Filter(Filter(BuiltInRules(sources), Enabled), InCategory(category))
       + Filter(Filter(CustomRules(sources, CustomRulesDir(basePath)), Enabled), InCategory(category))
  {
    GetAllRulesWithBasePath(sources, basePath);
    FilterAppend(Filter(BuiltInRules(sources), Enabled), Filter(CustomRules(sources, CustomRulesDir(basePath)), Enabled), InCategory(category));
  }
}
