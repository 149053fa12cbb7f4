/**
 * The diagnostics gate: every compiler diagnostic whose id is not on a fixed
 * allow-list is reported and marks the run as having issues; a run with issues
 * stops before any symbol is looked at.
 */
module Gate {

  /**
   * Diagnostic ids that do not stop the run: CS3021 (CLSCompliant attribute not
   * needed), CS0809 (obsolete member overrides non-obsolete member) and CS0618
   * (use of an obsolete member).
   */
  const AllowList: set<string> := {"CS3021", "CS0809", "CS0618"}

  /** The ids reported as issues, in the order the diagnostics come. */
  function Offending(ids: seq<string>): (r: seq<string>)
    ensures |r| <= |ids|
    ensures forall d :: d in r ==> d in ids && d !in AllowList
  {
    if ids == [] then []
    else
      var init, d := ids[..|ids| - 1], ids[|ids| - 1];
      assert forall x :: x in init ==> x in ids;
      Offending(init) + (if d in AllowList then [] else [d])
  }

  /** Every diagnostic outside the allow-list is reported. */
  lemma {:induction false} OffendingComplete(ids: seq<string>, i: nat)
    requires i < |ids| && ids[i] !in AllowList
    ensures ids[i] in Offending(ids)
    decreases |ids|
  {
    var init := ids[..|ids| - 1];
    if i < |ids| - 1 {
      assert init[i] == ids[i];
      OffendingComplete(init, i);
    }
  }

  /**
   * The loop over the compilation's diagnostics. Each diagnostic is modelled by
   * its id; the printed report is the sequence of offending ids.
   */
  method CheckDiagnostics(ids: seq<string>) returns (hasIssues: bool, reported: seq<string>)
    ensures hasIssues <==> exists i :: 0 <= i < |ids| && ids[i] !in AllowList
    ensures hasIssues <==> reported != []
    ensures reported == Offending(ids)
  {
    hasIssues := false;
    reported := [];
    for i := 0 to |ids|
      invariant hasIssues <==> exists k :: 0 <= k < i && ids[k] !in AllowList
      invariant reported == Offending(ids[..i])
      invariant hasIssues <==> reported != []
    {
      assert ids[..i + 1][..i] == ids[..i];
      var id := ids[i];
      if id == "CS3021" || id == "CS0809" || id == "CS0618" {
        continue;
      }
      hasIssues := true;
      reported := reported + [id];
    }
    assert ids[..|ids|] == ids;
  }
}
