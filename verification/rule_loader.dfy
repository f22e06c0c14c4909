/**
 * Rule loading: the bundled catalogue of built-in rules, the rule files of a
 * project's custom rules folder, and the two together. Bundled resources,
 * folder listings and YAML parsing are not modelled; they reach the loader
 * as a RuleSources value that says what each lookup yields.
 */
module RuleLoader {
  import opened Wrappers
  import opened Rules
  import opened Seqs
  import opened Strings

  /** What reading one YAML rule document gives: a rule, or an exception. */
  datatype ParseOutcome = Parsed(rule: Rule) | Unparsable

  /** A file listed in a rules folder, with what parsing it gives. */
  datatype ListedFile = ListedFile(name: string, parsed: ParseOutcome)

  /**
   * The outside world of the loader: `resource(path)` is None when no bundled
   * resource has that path, and `folder(dir)` is None when `dir` is missing,
   * is not a directory or cannot be listed.
   */
  datatype RuleSources = RuleSources(
    resource: string -> Option<ParseOutcome>,
    folder: string -> Option<seq<ListedFile>>)

  const ResourcePath: string := "/rules/"

  /** The catalogue of built-in rule files, in loading order. */
  const BuiltInRuleFiles: seq<string> := [
    "hardcoded-secrets.yaml",
    "sql-injection.yaml",
    "weak-crypto.yaml",
    "empty-catch.yaml",
    "insecure-http.yaml",
    "command-injection.yaml",
    "path-traversal.yaml",
    "ssrf.yaml",
    "insecure-deserialization.yaml",
    "missing-auth.yaml"]

  /** One catalogue entry: its rule, or nothing when the resource is absent or does not parse. */
  function BuiltInRule(sources: RuleSources, fileName: string): (rules: seq<Rule>)
    ensures |rules| <= 1
    ensures |rules| == 1 <==> sources.resource(ResourcePath + fileName).Some? && sources.resource(ResourcePath + fileName).value.Parsed?
  {
    match sources.resource(ResourcePath + fileName)
    case Some(Parsed(rule)) => [rule]
    case _ => []
  }

  /** The rules of the named catalogue entries, in catalogue order. */
  function LoadedBuiltIns(sources: RuleSources, names: seq<string>): seq<Rule> {
    FlatMap(names, name => BuiltInRule(sources, name))
  }

  function BuiltInRules(sources: RuleSources): seq<Rule> {
    LoadedBuiltIns(sources, BuiltInRuleFiles)
  }

  lemma LoadedBuiltInsStep(sources: RuleSources, names: seq<string>, i: nat)
    requires i < |names|
    ensures LoadedBuiltIns(sources, names[..i + 1]) == LoadedBuiltIns(sources, names[..i]) + BuiltInRule(sources, names[i])
  {
    FlatMapStep(names, i, name => BuiltInRule(sources, name));
  }

  /** `loadBuiltInRules`: each catalogue entry in turn, skipping those that are absent or fail to parse. */
  method LoadBuiltInRules(sources: RuleSources) returns (rules: seq<Rule>)
    ensures rules == BuiltInRules(sources)
  {
    var ruleFiles := BuiltInRuleFiles;
    rules := [];
    for i := 0 to |ruleFiles|
      invariant rules == LoadedBuiltIns(sources, ruleFiles[..i])
    {
      LoadedBuiltInsStep(sources, ruleFiles, i);
      var stream := sources.resource(ResourcePath + ruleFiles[i]);
      if stream.Some? {
        match stream.value {
          case Parsed(rule) => rules := rules + [rule];
          case Unparsable =>
        }
      }
    }
    assert ruleFiles[..|ruleFiles|] == ruleFiles;
  }

  /** The catalogue is fixed, so there are at most ten built-in rules. */
  lemma BuiltInRulesAtMostTen(sources: RuleSources)
    ensures |BuiltInRules(sources)| <= 10
  {
    FlatMapAtMostOne(BuiltInRuleFiles, name => BuiltInRule(sources, name));
  }

  /** When every catalogue entry loads, rule `i` is the one parsed from catalogue entry `i`. */
  lemma BuiltInRulesAllLoaded(sources: RuleSources)
    requires forall i :: 0 <= i < |BuiltInRuleFiles| ==> sources.resource(ResourcePath + BuiltInRuleFiles[i]).Some? && sources.resource(ResourcePath + BuiltInRuleFiles[i]).value.Parsed?
    ensures |BuiltInRules(sources)| == 10
    ensures forall i :: 0 <= i < 10 ==> BuiltInRules(sources)[i] == sources.resource(ResourcePath + BuiltInRuleFiles[i]).value.rule
  {
    var f := name => BuiltInRule(sources, name);
    FlatMapExactlyOne(BuiltInRuleFiles, f);
  }

  /** An entry that is absent or does not parse is skipped, and only that entry: the others load as before. */
  lemma BuiltInRulesSkipFailure(sources: RuleSources, i: nat)
    requires i < |BuiltInRuleFiles|
    requires sources.resource(ResourcePath + BuiltInRuleFiles[i]).None? || sources.resource(ResourcePath + BuiltInRuleFiles[i]).value.Unparsable?
    ensures BuiltInRules(sources) == LoadedBuiltIns(sources, BuiltInRuleFiles[..i]) + LoadedBuiltIns(sources, BuiltInRuleFiles[i + 1..])
  {
    FlatMapSplit(BuiltInRuleFiles, name => BuiltInRule(sources, name), i);
  }

  /** Every built-in rule is what some catalogue entry parsed to. */
  lemma BuiltInRulesProvenance(sources: RuleSources, j: nat)
    requires j < |BuiltInRules(sources)|
    ensures exists k :: 0 <= k < |BuiltInRuleFiles| && sources.resource(ResourcePath + BuiltInRuleFiles[k]) == Some(Parsed(BuiltInRules(sources)[j]))
  {
    var f := name => BuiltInRule(sources, name);
    FlatMapOrigin(BuiltInRuleFiles, f, j);
    var k, l :| 0 <= k < |BuiltInRuleFiles| && 0 <= l < |f(BuiltInRuleFiles[k])| && FlatMap(BuiltInRuleFiles, f)[j] == f(BuiltInRuleFiles[k])[l];
  }

  /** The folder's filter: only `.yaml` and `.yml` files are rule files. */
  predicate IsRuleFile(file: ListedFile) {
    Extension(file.name) == "yaml" || Extension(file.name) == "yml"
  }

  /** One rule file: its rule marked custom, or nothing when it does not parse. */
  function CustomRule(file: ListedFile): (rules: seq<Rule>)
    ensures |rules| <= 1
    ensures file.parsed.Parsed? ==> rules == [file.parsed.rule.(custom := true)]
    ensures file.parsed.Unparsable? ==> rules == []
  {
    match file.parsed
    case Parsed(rule) => [rule.(custom := true)]
    case Unparsable => []
  }

  function LoadedCustoms(files: seq<ListedFile>): seq<Rule> {
    FlatMap(files, CustomRule)
  }

  /** The custom rules of a folder: none when it cannot be listed, otherwise one per parsable rule file, in listing order. */
  function CustomRules(sources: RuleSources, dir: string): seq<Rule> {
    match sources.folder(dir)
    case None => []
    case Some(files) => LoadedCustoms(Filter(files, IsRuleFile))
  }

  lemma LoadedCustomsStep(files: seq<ListedFile>, i: nat)
    requires i < |files|
    ensures LoadedCustoms(files[..i + 1]) == LoadedCustoms(files[..i]) + CustomRule(files[i])
  {
    FlatMapStep(files, i, CustomRule);
  }

  /** `loadCustomRules`: each listed rule file in turn, its rule forced custom, skipping those that fail to parse. */
  method LoadCustomRules(sources: RuleSources, dir: string) returns (rules: seq<Rule>)
    ensures rules == CustomRules(sources, dir)
  {
    var listing := sources.folder(dir);
    if listing.None? {
      return [];
    }
    var files := Filter(listing.value, IsRuleFile);
    rules := [];
    for i := 0 to |files|
      invariant rules == LoadedCustoms(files[..i])
    {
      LoadedCustomsStep(files, i);
      match files[i].parsed {
        case Parsed(rule) => rules := rules + [rule.(custom := true)];
        case Unparsable =>
      }
    }
    assert files[..|files|] == files;
  }

  /** Every loaded custom rule is the parsed rule of one of the files, marked custom. */
  lemma LoadedCustomsOrigin(files: seq<ListedFile>, j: nat)
    requires j < |LoadedCustoms(files)|
    ensures exists k :: 0 <= k < |files| && files[k].parsed.Parsed? && LoadedCustoms(files)[j] == files[k].parsed.rule.(custom := true)
  {
    FlatMapOrigin(files, CustomRule, j);
    var k, l :| 0 <= k < |files| && 0 <= l < |CustomRule(files[k])| && FlatMap(files, CustomRule)[j] == CustomRule(files[k])[l];
  }

  /**
   * Every custom rule is the rule parsed from some listed `.yaml` or `.yml`
   * file with `custom` set, whatever that file said.
   */
  lemma CustomRulesProvenance(sources: RuleSources, dir: string, j: nat)
    requires j < |CustomRules(sources, dir)|
    ensures CustomRules(sources, dir)[j].custom
    ensures sources.folder(dir).Some?
    ensures exists k :: 0 <= k < |sources.folder(dir).value|
              && var file := sources.folder(dir).value[k];
                 IsRuleFile(file) && file.parsed.Parsed? && CustomRules(sources, dir)[j] == file.parsed.rule.(custom := true)
  {
    var all := sources.folder(dir).value;
    var files := Filter(all, IsRuleFile);
    LoadedCustomsOrigin(files, j);
    var k :| 0 <= k < |files| && files[k].parsed.Parsed? && LoadedCustoms(files)[j] == files[k].parsed.rule.(custom := true);
    FilterMembership(all, IsRuleFile, files[k]);
    var m :| 0 <= m < |all| && all[m] == files[k];
  }

  /** A rule file that does not parse is skipped, and only that file. */
  lemma CustomRulesSkipFailure(files: seq<ListedFile>, i: nat)
    requires i < |files| && files[i].parsed.Unparsable?
    ensures LoadedCustoms(files) == LoadedCustoms(files[..i]) + LoadedCustoms(files[i + 1..])
  {
    FlatMapSplit(files, CustomRule, i);
  }

  function Enabled(rule: Rule): bool {
    rule.enabled
  }

  /** Built-in rules, then the custom folder's rules when a folder is given, keeping the enabled ones. */
  function AllRules(sources: RuleSources, customRulesPath: Option<string>): (rules: seq<Rule>)
    ensures forall i :: 0 <= i < |rules| ==> rules[i].enabled
  {
    var custom := match customRulesPath
      case None => []
      case Some(dir) => CustomRules(sources, dir);
    Filter(BuiltInRules(sources) + custom, Enabled)
  }

  /** `loadAllRules`. */
  method LoadAllRules(sources: RuleSources, customRulesPath: Option<string>) returns (rules: seq<Rule>)
    ensures rules == AllRules(sources, customRulesPath)
  {
    var allRules := LoadBuiltInRules(sources);
    if customRulesPath.Some? {
      var custom := LoadCustomRules(sources, customRulesPath.value);
      allRules := allRules + custom;
    } else {
      assert allRules + [] == allRules;
    }
    rules := Filter(allRules, Enabled);
  }

  /** Enabled built-in rules come first, then enabled custom rules; without a folder there are only built-in rules. */
  lemma AllRulesOrder(sources: RuleSources, customRulesPath: Option<string>)
    ensures customRulesPath.None? ==> AllRules(sources, customRulesPath) == Filter(BuiltInRules(sources), Enabled)
    ensures customRulesPath.Some? ==>
      AllRules(sources, customRulesPath) == Filter(BuiltInRules(sources), Enabled) + Filter(CustomRules(sources, customRulesPath.value), Enabled)
  {
    if customRulesPath.None? {
      assert BuiltInRules(sources) + [] == BuiltInRules(sources);
    } else {
      FilterAppend(BuiltInRules(sources), CustomRules(sources, customRulesPath.value), Enabled);
    }
  }

  /** A rule is loaded exactly when it is enabled and is a built-in rule or a rule of the given folder. */
  lemma AllRulesMembership(sources: RuleSources, customRulesPath: Option<string>, rule: Rule)
    ensures rule in AllRules(sources, customRulesPath) <==>
      rule.enabled && (rule in BuiltInRules(sources) || (customRulesPath.Some? && rule in CustomRules(sources, customRulesPath.value)))
  {
    var custom := if customRulesPath.None? then [] else CustomRules(sources, customRulesPath.value);
    FilterMembership(BuiltInRules(sources) + custom, Enabled, rule);
  }
}
