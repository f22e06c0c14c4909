/**
 * The rule catalogue's data model: a rule, its patterns, compliance tags and
 * quick fix, and the closed enumerations they draw from.
 */
module Rules {
  import opened Wrappers

  /** The pattern kinds a rule may declare; only `Regex` is executed by the matcher. */
  datatype PatternType = Regex | Ast | Semantic | Taint

  /** Declared from most to least severe; the declaration order is the ordinal. */
  datatype Severity = Critical | High | Medium | Low | Info

  datatype RuleCategory =
    | Security | Compliance | Quality | Documentation | ApiSecurity | DataSecurity
    | Cryptography | Authentication | Authorization | Injection | Secrets

  datatype ComplianceFramework = PciDss | Soc2 | Hipaa | Gdpr | Owasp | Cwe | Nist

  datatype QuickFixType = Remove | Replace | Suggest | Refactor

  datatype ComplianceTag = ComplianceTag(framework: ComplianceFramework, control: string, requirement: string)

  datatype QuickFix = QuickFix(kind: QuickFixType, description: string, replacement: Option<string>)

  /** An empty `fileTypes` list means "no extension filter"; `message` overrides the rule's description. */
  datatype RulePattern = RulePattern(kind: PatternType, pattern: string, fileTypes: seq<string>, message: Option<string>)

  datatype Rule = Rule(
    id: string,
    name: string,
    description: string,
    severity: Severity,
    category: RuleCategory,
    compliance: seq<ComplianceTag>,
    patterns: seq<RulePattern>,
    quickFix: Option<QuickFix>,
    enabled: bool,
    custom: bool)

  /** The enum's `ordinal`: position in the declaration. */
  function Ordinal(s: Severity): (n: nat)
    ensures n < 5
  {
    match s
    case Critical => 0
    case High => 1
    case Medium => 2
    case Low => 3
    case Info => 4
  }

  /** "At least as severe as": a smaller or equal ordinal. */
  predicate AtLeastAsSevere(a: Severity, b: Severity) {
    Ordinal(a) <= Ordinal(b)
  }

  /** The declaration order is a strict ranking: CRITICAL above HIGH above MEDIUM above LOW above INFO. */
  lemma SeverityRanking()
    ensures Ordinal(Critical) < Ordinal(High) < Ordinal(Medium) < Ordinal(Low) < Ordinal(Info)
    ensures forall a: Severity, b: Severity :: Ordinal(a) == Ordinal(b) ==> a == b
  {
  }

  /** "At least as severe as" is a total order, with CRITICAL at the top and INFO at the bottom. */
  lemma SeverityTotalOrder()
    ensures forall a :: AtLeastAsSevere(a, a)
    ensures forall a, b :: AtLeastAsSevere(a, b) && AtLeastAsSevere(b, a) ==> a == b
    ensures forall a, b, c :: AtLeastAsSevere(a, b) && AtLeastAsSevere(b, c) ==> AtLeastAsSevere(a, c)
    ensures forall a, b :: AtLeastAsSevere(a, b) || AtLeastAsSevere(b, a)
    ensures forall a :: AtLeastAsSevere(Critical, a) && AtLeastAsSevere(a, Info)
  {
    SeverityRanking();
  }

  /** `Rule(id, name, description, severity, category)` with every defaulted field left at its default. */
  function NewRule(id: string, name: string, description: string, severity: Severity, category: RuleCategory): (r: Rule)
    ensures r.id == id && r.name == name && r.description == description
    ensures r.severity == severity && r.category == category
    ensures r.compliance == [] && r.patterns == [] && r.quickFix == None
    ensures r.enabled && !r.custom
  {
    Rule(id, name, description, severity, category, [], [], None, true, false)
  }

  /** `RulePattern(type, pattern)` with the defaults: no extension filter, no message override. */
  function NewRulePattern(kind: PatternType, pattern: string): (p: RulePattern)
    ensures p.kind == kind && p.pattern == pattern
    ensures p.fileTypes == [] && p.message == None
  {
    RulePattern(kind, pattern, [], None)
  }

  /** `QuickFix(type, description)`: the replacement text is optional and defaults to absent. */
  function NewQuickFix(kind: QuickFixType, description: string): (q: QuickFix)
    ensures q.kind == kind && q.description == description && q.replacement == None
  {
    QuickFix(kind, description, None)
  }
}
