/**
 * Cross-scan tracking of findings. A finding is identified across scans by
 * its fingerprint: a current finding seen before is PERSISTENT and keeps its
 * first detection time, one not seen before is NEW, and a previous finding
 * absent from the current scan is carried over as CLOSED.
 */
module VulnerabilityTracking {
  import opened Wrappers
  import opened Reports
  import opened Seqs

  /** `associateBy { it.fingerprint }`: each fingerprint of the list, mapped to the LAST finding that has it. */
  function AssociateBy(vs: seq<Vulnerability>): (m: map<Fingerprint, Vulnerability>)
    ensures forall fp :: fp in m ==> m[fp].fingerprint == fp
  {
    if vs == [] then map[]
    else AssociateBy(vs[..|vs| - 1])[vs[|vs| - 1].fingerprint := vs[|vs| - 1]]
  }

  /** A fingerprint is a key exactly when some finding has it. */
  lemma {:induction false} AssociateByKeys(vs: seq<Vulnerability>, fp: Fingerprint)
    ensures fp in AssociateBy(vs) <==> exists i :: 0 <= i < |vs| && vs[i].fingerprint == fp
  {
    if vs != [] {
      var init := vs[..|vs| - 1];
      AssociateByKeys(init, fp);
      if exists i :: 0 <= i < |init| && init[i].fingerprint == fp {
        var i :| 0 <= i < |init| && init[i].fingerprint == fp;
        assert vs[i] == init[i];
      }
      if exists i :: 0 <= i < |vs| && vs[i].fingerprint == fp {
        var i :| 0 <= i < |vs| && vs[i].fingerprint == fp;
        if i < |init| {
          assert init[i] == vs[i];
        }
      }
    }
  }

  /** The last finding with a fingerprint wins: a key maps to a finding no later finding shares the fingerprint with. */
  lemma {:induction false} AssociateByLast(vs: seq<Vulnerability>, fp: Fingerprint)
    requires fp in AssociateBy(vs)
    ensures exists i :: 0 <= i < |vs| && vs[i] == AssociateBy(vs)[fp]
              && forall j :: i < j < |vs| ==> vs[j].fingerprint != fp
  {
    var init := vs[..|vs| - 1];
    var last := vs[|vs| - 1];
    if last.fingerprint != fp {
      AssociateByLast(init, fp);
      var i :| 0 <= i < |init| && init[i] == AssociateBy(init)[fp] && forall j :: i < j < |init| ==> init[j].fingerprint != fp;
      assert vs[i] == init[i];
      forall j | i < j < |vs|
        ensures vs[j].fingerprint != fp
      {
        if j < |init| {
          assert vs[j] == init[j];
        }
      }
    }
  }

  /** `map { it.fingerprint }.toSet()`. */
  function Fingerprints(vs: seq<Vulnerability>): set<Fingerprint> {
    set i | 0 <= i < |vs| :: vs[i].fingerprint
  }

  /** A current finding after tracking: PERSISTENT with its first detection when seen before, NEW otherwise. */
  function Updated(v: Vulnerability, previous: map<Fingerprint, Vulnerability>, now: int): Vulnerability {
    if v.fingerprint in previous
    then v.(status := Persistent, firstDetected := previous[v.fingerprint].firstDetected, lastDetected := now)
    else v.(status := New, firstDetected := now, lastDetected := now)
  }

  /** A previous finding gone from the current scan. */
  function ClosedAt(v: Vulnerability, now: int): Vulnerability {
    v.(status := Closed, lastDetected := now)
  }

  /** The first loop: every current finding, updated, in order. */
  function TrackCurrent(current: seq<Vulnerability>, previous: map<Fingerprint, Vulnerability>, now: int): (tracked: seq<Vulnerability>)
    ensures |tracked| == |current|
  {
    if current == [] then []
    else TrackCurrent(current[..|current| - 1], previous, now) + [Updated(current[|current| - 1], previous, now)]
  }

  /** The second loop: the previous findings whose fingerprint is not current, closed, in order. */
  function CloseMissing(previous: seq<Vulnerability>, current: set<Fingerprint>, now: int): (closed: seq<Vulnerability>)
    ensures |closed| <= |previous|
  {
    if previous == [] then []
    else
      var last := previous[|previous| - 1];
      CloseMissing(previous[..|previous| - 1], current, now) + (if last.fingerprint in current then [] else [ClosedAt(last, now)])
  }

  /** What tracking returns: the current findings updated, then the previous ones that are gone, closed. */
  function Tracked(current: seq<Vulnerability>, previous: seq<Vulnerability>, now: int): seq<Vulnerability> {
    TrackCurrent(current, AssociateBy(previous), now) + CloseMissing(previous, Fingerprints(current), now)
  }

  lemma TrackCurrentStep(current: seq<Vulnerability>, previous: map<Fingerprint, Vulnerability>, now: int, i: nat)
    requires i < |current|
    ensures TrackCurrent(current[..i + 1], previous, now) == TrackCurrent(current[..i], previous, now) + [Updated(current[i], previous, now)]
  {
    assert current[..i + 1][..i] == current[..i];
  }

  lemma CloseMissingStep(previous: seq<Vulnerability>, current: set<Fingerprint>, now: int, i: nat)
    requires i < |previous|
    ensures CloseMissing(previous[..i + 1], current, now)
         == CloseMissing(previous[..i], current, now) + (if previous[i].fingerprint in current then [] else [ClosedAt(previous[i], now)])
  {
    assert previous[..i + 1][..i] == previous[..i];
  }

  /** `trackVulnerabilityStatus`, with every clock reading taken as `now`. */
  method TrackVulnerabilityStatus(current: seq<Vulnerability>, previous: seq<Vulnerability>, now: int)
    returns (tracked: seq<Vulnerability>)
    ensures tracked == Tracked(current, previous, now)
  {
    var previousFingerprints := AssociateBy(previous);
    var currentFingerprints := Fingerprints(current);
    tracked := [];
    for i := 0 to |current|
      invariant tracked == TrackCurrent(current[..i], previousFingerprints, now)
    {
      TrackCurrentStep(current, previousFingerprints, now, i);
      var vuln := current[i];
      var updated;
      if vuln.fingerprint in previousFingerprints {
        var previousVuln := previousFingerprints[vuln.fingerprint];
        updated := vuln.(status := Persistent, firstDetected := previousVuln.firstDetected, lastDetected := now);
      } else {
        updated := vuln.(status := New, firstDetected := now, lastDetected := now);
      }
      tracked := tracked + [updated];
    }
    assert current[..|current|] == current;
    var updatedCurrent := tracked;
    for i := 0 to |previous|
      invariant tracked == updatedCurrent + CloseMissing(previous[..i], currentFingerprints, now)
    {
      CloseMissingStep(previous, currentFingerprints, now, i);
      var prevVuln := previous[i];
      if prevVuln.fingerprint !in currentFingerprints {
        tracked := tracked + [prevVuln.(status := Closed, lastDetected := now)];
      }
    }
    assert previous[..|previous|] == previous;
  }

  /** `map { it.copy(status = NEW) }`: the first scan marks every finding NEW and changes nothing else. */
  function MarkedNew(current: seq<Vulnerability>): (marked: seq<Vulnerability>)
    ensures |marked| == |current|
    ensures forall i :: 0 <= i < |current| ==> marked[i].status == New && marked[i].(status := current[i].status) == current[i]
  {
    seq(|current|, i requires 0 <= i < |current| => current[i].(status := New))
  }

  function Missing(current: set<Fingerprint>): Vulnerability -> bool {
    (v: Vulnerability) => v.fingerprint !in current
  }

  /**
   * The closed part is exactly the previous findings whose fingerprint is not
   * current, in their previous order, each with only its status and last
   * detection changed.
   */
  lemma {:induction false} CloseMissingExact(previous: seq<Vulnerability>, current: set<Fingerprint>, now: int)
    ensures var gone := Filter(previous, Missing(current));
            && |CloseMissing(previous, current, now)| == |gone|
            && forall i :: 0 <= i < |gone| ==> CloseMissing(previous, current, now)[i] == ClosedAt(gone[i], now)
  {
    if previous != [] {
      CloseMissingExact(previous[..|previous| - 1], current, now);
    }
  }

  /** Tracking returns the current findings, then one closed finding per previous finding that is gone. */
  lemma TrackedLength(current: seq<Vulnerability>, previous: seq<Vulnerability>, now: int)
    ensures |Tracked(current, previous, now)| == |current| + |Filter(previous, Missing(Fingerprints(current)))|
  {
    CloseMissingExact(previous, Fingerprints(current), now);
  }

  /**
   * Position `i` of the output for `i < |current|` is current finding `i`:
   * PERSISTENT exactly when some previous finding has its fingerprint, with
   * the first detection of the last such previous finding; NEW otherwise,
   * first and last detected now. Nothing else about the finding changes.
   */
  lemma TrackedCurrent(current: seq<Vulnerability>, previous: seq<Vulnerability>, now: int, i: nat)
    requires i < |current|
    ensures var t := Tracked(current, previous, now)[i];
            && t.(status := current[i].status, firstDetected := current[i].firstDetected, lastDetected := current[i].lastDetected) == current[i]
            && t.lastDetected == now
            && (t.status == Persistent <==> exists j :: 0 <= j < |previous| && previous[j].fingerprint == current[i].fingerprint)
            && (t.status == Persistent ==>
                  exists j :: 0 <= j < |previous| && previous[j].fingerprint == current[i].fingerprint
                    && t.firstDetected == previous[j].firstDetected
                    && forall k :: j < k < |previous| ==> previous[k].fingerprint != current[i].fingerprint)
            && (t.status != Persistent ==> t.status == New && t.firstDetected == now)
  {
    var m := AssociateBy(previous);
    TrackCurrentAt(current, m, now, i);
    AssociateByKeys(previous, current[i].fingerprint);
    if current[i].fingerprint in m {
      AssociateByLast(previous, current[i].fingerprint);
    }
  }

  lemma {:induction false} TrackCurrentAt(current: seq<Vulnerability>, previous: map<Fingerprint, Vulnerability>, now: int, i: nat)
    requires i < |current|
    ensures TrackCurrent(current, previous, now)[i] == Updated(current[i], previous, now)
  {
    var init := current[..|current| - 1];
    if i < |init| {
      TrackCurrentAt(init, previous, now, i);
    }
  }

  /** Position `|current| + i` of the output is the `i`-th previous finding that is gone, closed. */
  lemma TrackedClosed(current: seq<Vulnerability>, previous: seq<Vulnerability>, now: int, i: nat)
    requires i < |Filter(previous, Missing(Fingerprints(current)))|
    ensures var gone := Filter(previous, Missing(Fingerprints(current)));
            && |Tracked(current, previous, now)| == |current| + |gone|
            && gone[i].fingerprint !in Fingerprints(current)
            && Tracked(current, previous, now)[|current| + i] == gone[i].(status := Closed, lastDetected := now)
  {
    CloseMissingExact(previous, Fingerprints(current), now);
  }

  /** Tracking never produces FIXED: every status is NEW, PERSISTENT or CLOSED. */
  lemma TrackedNeverFixed(current: seq<Vulnerability>, previous: seq<Vulnerability>, now: int)
    ensures forall i :: 0 <= i < |Tracked(current, previous, now)| ==>
              Tracked(current, previous, now)[i].status in {New, Persistent, Closed}
  {
    var tracked := Tracked(current, previous, now);
    TrackedLength(current, previous, now);
    forall i | 0 <= i < |tracked|
      ensures tracked[i].status in {New, Persistent, Closed}
    {
      if i < |current| {
        TrackCurrentAt(current, AssociateBy(previous), now, i);
      } else {
        TrackedClosed(current, previous, now, i - |current|);
      }
    }
  }
}
