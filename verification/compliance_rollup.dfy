/**
 * Compliance roll-up: the active findings grouped by the compliance
 * frameworks their rules are tagged with, and per framework the number of
 * distinct controls they violate. Every violated control counts as failed;
 * none as passed.
 */
module ComplianceRollup {
  import opened Rules
  import opened Reports
  import opened Seqs

  function FrameworkOf(tag: ComplianceTag): ComplianceFramework {
    tag.framework
  }

  /** What one finding adds to a framework's list: itself, once per tag of that framework. */
  function TagViolations(v: Vulnerability, tags: seq<ComplianceTag>, framework: ComplianceFramework): seq<Vulnerability> {
    if tags == [] then []
    else TagViolations(v, tags[..|tags| - 1], framework) + (if tags[|tags| - 1].framework == framework then [v] else [])
  }

  /** A framework's violations: every active finding, once per tag of that framework, in finding order. */
  function Violations(vs: seq<Vulnerability>, framework: ComplianceFramework): seq<Vulnerability> {
    if vs == [] then []
    else
      var last := vs[|vs| - 1];
      Violations(vs[..|vs| - 1], framework) + (if IsActive(last) then TagViolations(last, last.compliance, framework) else [])
  }

  /** The frameworks some active finding is tagged with. */
  function TaggedFrameworks(vs: seq<Vulnerability>): set<ComplianceFramework> {
    set v, t | v in vs && IsActive(v) && t in v.compliance :: t.framework
  }

  /** `flatMap { it.compliance }.filter { it.framework == framework }.map { it.control }.distinct()`, as a set. */
  function Controls(violations: seq<Vulnerability>, framework: ComplianceFramework): set<string> {
    set v, t | v in violations && t in v.compliance && t.framework == framework :: t.control
  }

  /** A framework's status: every distinct violated control is counted, and counted as failed. */
  function StatusFor(framework: ComplianceFramework, violations: seq<Vulnerability>): ComplianceStatus {
    var controls := |Controls(violations, framework)|;
    ComplianceStatus(framework, controls, 0, controls, violations)
  }

  /** `calculateComplianceStatus`, as a map from each tagged framework to its status. */
  function ComplianceReport(vs: seq<Vulnerability>): map<ComplianceFramework, ComplianceStatus> {
    map framework | framework in TaggedFrameworks(vs) :: StatusFor(framework, Violations(vs, framework))
  }

  lemma ViolationsStep(vs: seq<Vulnerability>, i: nat)
    requires i < |vs|
    ensures forall framework ::
      Violations(vs[..i + 1], framework) == Violations(vs[..i], framework) + (if IsActive(vs[i]) then TagViolations(vs[i], vs[i].compliance, framework) else [])
  {
    assert vs[..i + 1][..i] == vs[..i];
  }

  lemma TagViolationsAt(v: Vulnerability, tags: seq<ComplianceTag>, j: nat, framework: ComplianceFramework)
    requires j < |tags|
    ensures TagViolations(v, tags[..j + 1], framework) == TagViolations(v, tags[..j], framework) + (if tags[j].framework == framework then [v] else [])
  {
    assert tags[..j + 1][..j] == tags[..j];
  }

  /** A framework's list so far, empty when it has none (`getOrPut`'s default). */
  function Lookup(m: map<ComplianceFramework, seq<Vulnerability>>, framework: ComplianceFramework): seq<Vulnerability> {
    if framework in m then m[framework] else []
  }

  lemma LookupUpdate(m: map<ComplianceFramework, seq<Vulnerability>>, framework: ComplianceFramework, violations: seq<Vulnerability>, other: ComplianceFramework)
    ensures Lookup(m[framework := violations], other) == if other == framework then violations else Lookup(m, other)
  {
  }

  /** Only frameworks with at least one violation are keys. */
  predicate NoEmptyLists(m: map<ComplianceFramework, seq<Vulnerability>>) {
    forall framework :: framework in m ==> m[framework] != []
  }

  /** The inner loop of the grouping: the finding appended to the list of each of its tags' frameworks. */
  method AddTagged(m: map<ComplianceFramework, seq<Vulnerability>>, vuln: Vulnerability)
    returns (grouped: map<ComplianceFramework, seq<Vulnerability>>)
    requires NoEmptyLists(m)
    ensures NoEmptyLists(grouped)
    ensures forall framework :: Lookup(grouped, framework) == Lookup(m, framework) + TagViolations(vuln, vuln.compliance, framework)
  {
    grouped := m;
    var tags := vuln.compliance;
    for j := 0 to |tags|
      invariant NoEmptyLists(grouped)
      invariant forall framework :: Lookup(grouped, framework) == Lookup(m, framework) + TagViolations(vuln, tags[..j], framework)
    {
      var framework := tags[j].framework;
      var before := grouped;
      grouped := grouped[framework := Lookup(grouped, framework) + [vuln]];
      forall other
        ensures Lookup(grouped, other) == Lookup(m, other) + TagViolations(vuln, tags[..j + 1], other)
      {
        TagViolationsAt(vuln, tags, j, other);
        LookupUpdate(before, framework, Lookup(before, framework) + [vuln], other);
      }
    }
    assert tags[..|tags|] == tags;
  }

  /** The grouping loop: each active finding appended to the list of each framework it is tagged with. */
  method GroupByFramework(vs: seq<Vulnerability>) returns (frameworkViolations: map<ComplianceFramework, seq<Vulnerability>>)
    ensures NoEmptyLists(frameworkViolations)
    ensures forall framework :: Lookup(frameworkViolations, framework) == Violations(vs, framework)
  {
    frameworkViolations := map[];
    for i := 0 to |vs|
      invariant NoEmptyLists(frameworkViolations)
      invariant forall framework :: Lookup(frameworkViolations, framework) == Violations(vs[..i], framework)
    {
      ViolationsStep(vs, i);
      var vuln := vs[i];
      if vuln.status == Closed || vuln.status == Fixed {
        continue;
      }
      frameworkViolations := AddTagged(frameworkViolations, vuln);
    }
    assert vs[..|vs|] == vs;
  }

  /** A framework has violations exactly when some active finding is tagged with it. */
  lemma {:induction false} ViolationsNonEmpty(vs: seq<Vulnerability>, framework: ComplianceFramework)
    ensures Violations(vs, framework) != [] <==> framework in TaggedFrameworks(vs)
  {
    if vs != [] {
      var init := vs[..|vs| - 1];
      var last := vs[|vs| - 1];
      ViolationsNonEmpty(init, framework);
      TagViolationsNonEmpty(last, last.compliance, framework);
      if framework in TaggedFrameworks(vs) {
        var v, t :| v in vs && IsActive(v) && t in v.compliance && t.framework == framework;
        if v in init {
          assert framework in TaggedFrameworks(init);
        } else {
          assert v == last;
        }
      }
      if framework in TaggedFrameworks(init) {
        var v, t :| v in init && IsActive(v) && t in v.compliance && t.framework == framework;
        assert v in vs;
      }
    }
  }

  lemma {:induction false} TagViolationsNonEmpty(v: Vulnerability, tags: seq<ComplianceTag>, framework: ComplianceFramework)
    ensures TagViolations(v, tags, framework) != [] <==> exists t :: t in tags && t.framework == framework
  {
    if tags != [] {
      var init := tags[..|tags| - 1];
      TagViolationsNonEmpty(v, init, framework);
      if exists t :: t in tags && t.framework == framework {
        var t :| t in tags && t.framework == framework;
        if t != tags[|tags| - 1] {
          assert t in init;
        }
      }
    }
  }

  /** `calculateComplianceStatus`: group the active findings, then give every grouped framework its status. */
  method CalculateComplianceStatus(vs: seq<Vulnerability>) returns (statusMap: map<ComplianceFramework, ComplianceStatus>)
    ensures statusMap == ComplianceReport(vs)
  {
    var frameworkViolations := GroupByFramework(vs);
    statusMap := map[];
    var remaining := frameworkViolations.Keys;
    while remaining != {}
      invariant remaining <= frameworkViolations.Keys
      invariant statusMap.Keys == frameworkViolations.Keys - remaining
      invariant forall framework :: framework in statusMap ==> statusMap[framework] == StatusFor(framework, frameworkViolations[framework])
      decreases |remaining|
    {
      var framework :| framework in remaining;
      var violations := frameworkViolations[framework];
      var uniqueControls := Controls(violations, framework);
      statusMap := statusMap[framework := ComplianceStatus(framework, |uniqueControls|, 0, |uniqueControls|, violations)];
      remaining := remaining - {framework};
    }
    forall framework
      ensures framework in statusMap <==> framework in ComplianceReport(vs)
      ensures framework in statusMap ==> frameworkViolations[framework] == Violations(vs, framework)
    {
      ViolationsNonEmpty(vs, framework);
      assert Lookup(frameworkViolations, framework) == Violations(vs, framework);
    }
  }

  /** Every entry of a framework's violations is an active finding of the list tagged with that framework. */
  lemma {:induction false} ViolationsAreTagged(vs: seq<Vulnerability>, framework: ComplianceFramework, v: Vulnerability)
    requires v in Violations(vs, framework)
    ensures v in vs && IsActive(v) && exists t :: t in v.compliance && t.framework == framework
  {
    var init := vs[..|vs| - 1];
    var last := vs[|vs| - 1];
    if v in Violations(init, framework) {
      ViolationsAreTagged(init, framework, v);
    } else {
      TagViolationsOnly(last, last.compliance, framework, v);
    }
  }

  lemma {:induction false} TagViolationsOnly(w: Vulnerability, tags: seq<ComplianceTag>, framework: ComplianceFramework, v: Vulnerability)
    requires v in TagViolations(w, tags, framework)
    ensures v == w && exists t :: t in tags && t.framework == framework
  {
    var init := tags[..|tags| - 1];
    if v in TagViolations(w, init, framework) {
      TagViolationsOnly(w, init, framework, v);
      var t :| t in init && t.framework == framework;
      assert t in tags;
    } else {
      assert tags[|tags| - 1] in tags;
    }
  }

  lemma ScaledStep(n: nat, c: nat, hit: bool)
    ensures (n + (if hit then 1 else 0)) * c == n * c + (if hit then c else 0)
  {
  }

  /** How often a finding occurs in a framework's violations, after one more finding is appended. */
  lemma ViolationsLastCount(vs: seq<Vulnerability>, framework: ComplianceFramework, v: Vulnerability)
    requires vs != []
    ensures multiset(Violations(vs, framework))[v]
         == multiset(Violations(vs[..|vs| - 1], framework))[v]
          + (if vs[|vs| - 1] == v && IsActive(v) then CountKey(v.compliance, FrameworkOf, framework) else 0)
  {
    var last := vs[|vs| - 1];
    TagViolationsCount(last, last.compliance, framework, v);
  }

  lemma MultisetLastCount<T>(s: seq<T>, x: T)
    requires s != []
    ensures multiset(s)[x] == multiset(s[..|s| - 1])[x] + (if s[|s| - 1] == x then 1 else 0)
  {
    assert s == s[..|s| - 1] + [s[|s| - 1]];
  }

  /** A finding appears in a framework's violations once per tag of that framework, for each time it occurs, when active. */
  lemma {:induction false} ViolationsCount(vs: seq<Vulnerability>, framework: ComplianceFramework, v: Vulnerability)
    ensures multiset(Violations(vs, framework))[v]
         == if IsActive(v) then multiset(vs)[v] * CountKey(v.compliance, FrameworkOf, framework) else 0
  {
    if vs != [] {
      var init := vs[..|vs| - 1];
      ViolationsCount(init, framework, v);
      ViolationsLastCount(vs, framework, v);
      MultisetLastCount(vs, v);
      if IsActive(v) {
        ScaledStep(multiset(init)[v], CountKey(v.compliance, FrameworkOf, framework), vs[|vs| - 1] == v);
      }
    }
  }

  lemma {:induction false} TagViolationsCount(w: Vulnerability, tags: seq<ComplianceTag>, framework: ComplianceFramework, v: Vulnerability)
    ensures multiset(TagViolations(w, tags, framework))[v] == if v == w then CountKey(tags, FrameworkOf, framework) else 0
  {
    if tags != [] {
      TagViolationsCount(w, tags[..|tags| - 1], framework, v);
      CountKeyLast(tags, FrameworkOf, framework);
    }
  }

  /** Violations tagged with the framework leave at least one violated control. */
  lemma ControlsNonEmpty(vs: seq<Vulnerability>, framework: ComplianceFramework)
    requires Violations(vs, framework) != []
    ensures StatusFor(framework, Violations(vs, framework)).totalControls >= 1
  {
    var violations := Violations(vs, framework);
    ViolationsAreTagged(vs, framework, violations[0]);
    var t :| t in violations[0].compliance && t.framework == framework;
    assert t.control in Controls(violations, framework);
  }

  /** A status built by StatusFor counts every control as failed, so it is 0 percent compliant. */
  lemma StatusForFailed(framework: ComplianceFramework, violations: seq<Vulnerability>)
    ensures var status := StatusFor(framework, violations);
            && status.framework == framework
            && status.violations == violations
            && status.totalControls == status.failedControls
            && status.passedControls == 0
            && status.CompliancePercentage() == 0.0
  {
    var status := StatusFor(framework, violations);
    if status.totalControls > 0 {
      assert status.CompliancePercentage() == (0 as real / status.totalControls as real) * 100.0;
    }
  }

  /**
   * A framework in the roll-up has at least one violated control; all of them
   * are failed and none passed, so its compliance percentage is 0.
   */
  lemma ComplianceReportStatus(vs: seq<Vulnerability>, framework: ComplianceFramework)
    requires framework in ComplianceReport(vs)
    ensures var status := ComplianceReport(vs)[framework];
            && status == StatusFor(framework, Violations(vs, framework))
            && status.totalControls >= 1
  {
    ViolationsNonEmpty(vs, framework);
    ControlsNonEmpty(vs, framework);
  }
}
