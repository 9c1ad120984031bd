/** The post-processing of `get_program_version` in `clade/utils.py`. Running
    the program is replaced by its captured output, absent when the run failed. */
module Version {

  import opened Wrappers
  import opened Text

  const Unknown: string := "unknown"

  const CopyrightMarker: string := "\nCopyright"

  /** `re.sub(r'\nCopyright[\s\S]*', '', v)`: everything from the first
      "\nCopyright" to the end is dropped. */
  function StripCopyright(v: string): (r: string)
    ensures StartsWith(v, r)
    ensures r == v || OccursAt(v, CopyrightMarker, |r|)
    ensures forall i :: 0 <= i < |r| ==> !OccursAt(v, CopyrightMarker, i)
    ensures forall i :: !OccursAt(r, CopyrightMarker, i)
  {
    match IndexOfFrom(v, CopyrightMarker, 0)
    case None => v
    case Some(i) =>
      var r := v[..i];
      assert forall k: nat :: OccursAt(r, CopyrightMarker, k) ==> OccursAt(v, CopyrightMarker, k) by {
        forall k: nat | OccursAt(r, CopyrightMarker, k) ensures OccursAt(v, CopyrightMarker, k) {
          assert r[k..k + |CopyrightMarker|] == v[k..k + |CopyrightMarker|];
        }
      }
      r
  }

  /** `get_program_version`: the stripped output, or "unknown" when the run
      failed (the `finally` clause swallows the exception); a version that
      starts with "gcc" loses its copyright notice. */
  function ProgramVersion(output: Option<string>): (r: string)
    ensures output.None? ==> r == Unknown
    ensures output.Some? && !StartsWith(Strip(output.value), "gcc") ==> r == Strip(output.value)
    ensures output.Some? && StartsWith(Strip(output.value), "gcc") ==>
              && StartsWith(Strip(output.value), r)
              && (r == Strip(output.value) || OccursAt(Strip(output.value), CopyrightMarker, |r|))
              && forall i :: !OccursAt(r, CopyrightMarker, i)
  {
    var version := if output.None? then Unknown else Strip(output.value);
    if StartsWith(version, "gcc") then StripCopyright(version) else version
  }
}
