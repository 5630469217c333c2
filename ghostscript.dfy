/**
 * `check_ghostscript`: try the executable names of Ghostscript in a fixed order, probe
 * each with `<name> -version` and take the first one that exits with status 0. A probe
 * whose executable is missing or that times out is skipped; a probe that exits non-zero
 * is skipped too. Any other exception the probe raises is not caught and ends the run.
 */
module Ghostscript {

  const Candidates: seq<string> := ["gswin64c", "gswin32c", "gs"]

  /** What running `<name> -version` (5-second timeout) does. */
  datatype ProbeOutcome =
    | Exited(code: int)
    | ExecutableMissing   // FileNotFoundError
    | TimedOut            // subprocess.TimeoutExpired
    | Raised              // any other exception, which check_ghostscript lets escape

  predicate Skipped(p: ProbeOutcome) {
    p.ExecutableMissing? || p.TimedOut? || (p.Exited? && p.code != 0)
  }

  datatype Located = Found(command: string) | NotFound | ProbeRaised

  /** The reference definition: the first candidate whose probe answers with status 0. */
  function FirstAnswering(cands: seq<string>, probe: string -> ProbeOutcome): Located
    decreases |cands|
  {
    if cands == [] then NotFound
    else if probe(cands[0]) == Exited(0) then Found(cands[0])
    else if probe(cands[0]).Raised? then ProbeRaised
    else FirstAnswering(cands[1..], probe)
  }

  /**
   * `FirstAnswering` finds a command exactly at the first candidate that answers after
   * only skipped ones, and reports not-found exactly when every candidate is skipped.
   */
  lemma {:induction false} FirstAnsweringIsFirstMatch(cands: seq<string>, probe: string -> ProbeOutcome)
    ensures FirstAnswering(cands, probe).Found? <==>
      exists k :: 0 <= k < |cands| && probe(cands[k]) == Exited(0) && AllSkipped(cands, probe, k)
    ensures FirstAnswering(cands, probe).Found? ==>
      var k := FirstNotSkipped(cands, probe);
      k < |cands| && FirstAnswering(cands, probe).command == cands[k] && probe(cands[k]) == Exited(0)
    ensures FirstAnswering(cands, probe).NotFound? <==> AllSkipped(cands, probe, |cands|)
    ensures FirstAnswering(cands, probe).ProbeRaised? <==>
      exists k :: 0 <= k < |cands| && probe(cands[k]).Raised? && AllSkipped(cands, probe, k)
    decreases |cands|
  {
    if cands != [] {
      var rest := cands[1..];
      FirstAnsweringIsFirstMatch(rest, probe);
      forall k | 0 <= k <= |rest| ensures AllSkipped(cands, probe, k + 1) <==> Skipped(probe(cands[0])) && AllSkipped(rest, probe, k) {
        AllSkippedCons(cands, probe, k);
      }
      if Skipped(probe(cands[0])) {
        assert FirstNotSkipped(cands, probe) == 1 + FirstNotSkipped(rest, probe);
        assert FirstAnswering(cands, probe) == FirstAnswering(rest, probe);
        if FirstAnswering(rest, probe).Found? {
          var k :| 0 <= k < |rest| && probe(rest[k]) == Exited(0) && AllSkipped(rest, probe, k);
          assert probe(cands[k + 1]) == Exited(0) && AllSkipped(cands, probe, k + 1);
        }
        if FirstAnswering(rest, probe).ProbeRaised? {
          var k :| 0 <= k < |rest| && probe(rest[k]).Raised? && AllSkipped(rest, probe, k);
          assert probe(cands[k + 1]).Raised? && AllSkipped(cands, probe, k + 1);
        }
        assert !(probe(cands[0]) == Exited(0));
        assert !probe(cands[0]).Raised?;
      } else {
        assert AllSkipped(cands, probe, 0);
        assert !AllSkipped(cands, probe, |cands|);
        forall k | 0 < k <= |cands| ensures !AllSkipped(cands, probe, k) {
          assert !Skipped(probe(cands[0]));
        }
      }
    }
  }

  /** The first `k + 1` candidates are skipped iff the first is and the next `k` are. */
  lemma AllSkippedCons(cands: seq<string>, probe: string -> ProbeOutcome, k: nat)
    requires k < |cands|
    ensures AllSkipped(cands, probe, k + 1) <==> Skipped(probe(cands[0])) && AllSkipped(cands[1..], probe, k)
  {
    assert forall j :: 0 <= j < k ==> cands[1..][j] == cands[j + 1];
  }

  predicate AllSkipped(cands: seq<string>, probe: string -> ProbeOutcome, k: nat)
    requires k <= |cands|
  {
    forall j :: 0 <= j < k ==> Skipped(probe(cands[j]))
  }

  /** The index of the first candidate that is not skipped (|cands| if there is none). */
  function FirstNotSkipped(cands: seq<string>, probe: string -> ProbeOutcome): (k: nat)
    ensures k <= |cands|
    decreases |cands|
  {
    if cands == [] || !Skipped(probe(cands[0])) then 0 else 1 + FirstNotSkipped(cands[1..], probe)
  }

  /** The search loop with its early return. */
  method CheckGhostscript(probe: string -> ProbeOutcome) returns (r: Located)
    ensures r == FirstAnswering(Candidates, probe)
    ensures r.Found? ==> r.command in Candidates && probe(r.command) == Exited(0)
  {
    var i := 0;
    while i < |Candidates|
      invariant 0 <= i <= |Candidates|
      invariant FirstAnswering(Candidates[i..], probe) == FirstAnswering(Candidates, probe)
    {
      var outcome := probe(Candidates[i]);
      if outcome == Exited(0) {
        return Found(Candidates[i]);
      }
      if outcome.Raised? {
        return ProbeRaised;
      }
      assert Candidates[i..][1..] == Candidates[i + 1..];
      i := i + 1;
    }
    return NotFound;
  }
}
