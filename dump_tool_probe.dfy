/**
 * EasyDBBackup::find_mysqldump: try each candidate location of the mysqldump
 * program in a fixed order, and pick the first one whose `--version` run
 * exits with status 0.
 *
 * Running a candidate is not modelled; `probe` gives the exit status each
 * candidate's `--version` run would have.
 */
module DumpToolProbe {
  import opened Common

  /** The candidate locations, in the order they are tried. */
  const Candidates: seq<string> := [
    "mysqldump",
    "/usr/bin/mysqldump",
    "/usr/local/bin/mysqldump",
    "/usr/local/mysql/bin/mysqldump",
    "C:\\xampp\\mysql\\bin\\mysqldump.exe",
    "C:\\Program Files\\MySQL\\MySQL Server 5.7\\bin\\mysqldump.exe",
    "C:\\Program Files\\MySQL\\MySQL Server 8.0\\bin\\mysqldump.exe"
  ]

  /** The first path whose probe exits with 0, if any. */
  function FirstSuccess(paths: seq<string>, probe: string -> int): Option<string>
  {
    if paths == [] then None
    else if probe(paths[0]) == 0 then Some(paths[0])
    else FirstSuccess(paths[1..], probe)
  }

  /** How many paths are probed: up to and including the first success, or all of them. */
  function ProbeCount(paths: seq<string>, probe: string -> int): (n: nat)
    ensures n <= |paths|
  {
    if paths == [] then 0
    else if probe(paths[0]) == 0 then 1
    else 1 + ProbeCount(paths[1..], probe)
  }

  /**
   * FirstSuccess picks the earliest passing path: it finds a path exactly
   * when some path passes, and then the path it finds is the one at the
   * position of the last probe, every earlier path having failed.
   */
  lemma {:induction false} FirstSuccessIsEarliest(paths: seq<string>, probe: string -> int)
    ensures FirstSuccess(paths, probe).None? <==> forall k :: 0 <= k < |paths| ==> probe(paths[k]) != 0
    ensures FirstSuccess(paths, probe).None? ==> ProbeCount(paths, probe) == |paths|
    ensures FirstSuccess(paths, probe).Some? ==>
      var n := ProbeCount(paths, probe);
      && 0 < n
      && FirstSuccess(paths, probe).value == paths[n - 1]
      && probe(paths[n - 1]) == 0
      && forall k :: 0 <= k < n - 1 ==> probe(paths[k]) != 0
  {
    if paths != [] && probe(paths[0]) != 0 {
      FirstSuccessIsEarliest(paths[1..], probe);
      assert forall k :: 1 <= k < |paths| ==> paths[k] == paths[1..][k - 1];
    }
  }

  /**
   * Every candidate is a truthy PHP string, so whenever a tool is found the
   * caller's `if ($mysqldump_path)` takes the mysqldump branch.
   */
  lemma FoundToolIsTruthy(probe: string -> int)
    ensures FirstSuccess(Candidates, probe).Some? ==> !Falsy(FirstSuccess(Candidates, probe).value)
  {
    FirstSuccessIsEarliest(Candidates, probe);
  }

  /** find_mysqldump: the probe loop over the fixed candidate list. */
  method FindMysqldump(probe: string -> int) returns (found: Option<string>, probed: seq<string>)
    ensures found == FirstSuccess(Candidates, probe)
    ensures probed == Candidates[..ProbeCount(Candidates, probe)]
  {
    found, probed := ProbeInOrder(Candidates, probe);
  }

  /**
   * The probe loop with its early return.  `probed` records which paths
   * were run, in order.
   */
  method ProbeInOrder(paths: seq<string>, probe: string -> int) returns (found: Option<string>, probed: seq<string>)
    ensures found == FirstSuccess(paths, probe)
    ensures probed == paths[..ProbeCount(paths, probe)]
  {
    probed := [];
    var i := 0;
    while i < |paths|
      invariant 0 <= i <= |paths|
      invariant probed == paths[..i]
      invariant FirstSuccess(paths, probe) == FirstSuccess(paths[i..], probe)
      invariant ProbeCount(paths, probe) == i + ProbeCount(paths[i..], probe)
    {
      var path := paths[i];
      var status := probe(path);
      probed := probed + [path];
      if status == 0 {
        return Some(path), probed;
      }
      assert paths[i..][1..] == paths[i + 1..];
      i := i + 1;
    }
    return None, probed;
  }
}
