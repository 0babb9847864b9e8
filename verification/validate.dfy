/** The `validate` command (cmd/validate.go): reject an empty path, ask the
    filesystem whether the path is a directory, collect the manifest files
    (the path itself, or every non-directory entry of a walk of it), and
    hand the list to the rule engine, whose error is returned unchanged.

    The filesystem and the rule engine are parameters: the stat of the
    manifest path is a `Result` (is-directory or the failure's cause), the
    walk is the sequence of entries `fs.WalkDir` visits in its own order, and
    the rule engine is a total function from a manifest list to an optional
    error. */
module Validate {
  import opened Wrappers

  /** One callback of the walk: a visited entry, or an error reported at a path. */
  datatype Entry =
    | Visited(path: string, isDir: bool)
    | Fault(path: string, cause: string)

  /** The errors `run` can return. `Rejected` stands for whatever error the
      rule engine reports; the other three are produced by the command itself. */
  datatype Error =
    | EmptyManifestPath
    | StatFailed(cause: string)
    | WalkFailed(path: string, cause: string)
    | Rejected(message: string)

  /** What one run did: the manifest list submitted to the rule engine, if
      it got that far, and the error the command returns (`None` is nil). */
  datatype Outcome = Outcome(submitted: Option<seq<string>>, err: Option<Error>)

  predicate IsManifest(e: Entry) {
    e.Visited? && !e.isDir
  }

  /** The walk reported no error at any entry. */
  predicate WalkClean(walk: seq<Entry>) {
    forall i :: 0 <= i < |walk| ==> walk[i].Visited?
  }

  /** The paths of the non-directory entries, in visiting order. */
  function ManifestPaths(walk: seq<Entry>): seq<string> {
    if walk == [] then []
    else (if IsManifest(walk[0]) then [walk[0].path] else []) + ManifestPaths(walk[1..])
  }

  /** Where the walk first reported an error; the walk stops there. */
  function FirstFault(walk: seq<Entry>): (k: nat)
    requires !WalkClean(walk)
    ensures k < |walk| && walk[k].Fault?
    ensures forall j :: 0 <= j < k ==> walk[j].Visited?
  {
    if walk[0].Fault? then 0 else 1 + FirstFault(walk[1..])
  }

  /** `getManifests`: all non-directory paths of a clean walk, or the
      wrapped error of the first fault and no partial list. */
  function GetManifests(walk: seq<Entry>): (r: Result<seq<string>, Error>)
    ensures r.Ok? <==> WalkClean(walk)
    ensures r.Ok? ==> r.value == ManifestPaths(walk)
    ensures r.Err? ==> r.error == WalkFailed(walk[FirstFault(walk)].path, walk[FirstFault(walk)].cause)
  {
    if walk == [] then Ok([])
    else
      match walk[0]
      case Fault(p, cause) => Err(WalkFailed(p, cause))
      case Visited(p, isDir) =>
        match GetManifests(walk[1..])
        case Err(e) => Err(e)
        case Ok(rest) => Ok(if isDir then rest else [p] + rest)
  }

  /** `run`, as a pipeline: empty-path check, stat, collection, validation. */
  function Run(
    manifestPath: string, stat: Result<bool, string>, walk: seq<Entry>,
    validate: seq<string> -> Option<Error>): (o: Outcome)
    // an empty path is refused before anything else happens
    ensures manifestPath == "" ==> o == Outcome(None, Some(EmptyManifestPath))
    // a failed stat ends the run before collection or validation
    ensures manifestPath != "" && stat.Err? ==> o == Outcome(None, Some(StatFailed(stat.error)))
    // a single file is submitted on its own
    ensures manifestPath != "" && stat == Ok(false) ==> o.submitted == Some([manifestPath])
    // a directory is submitted as the non-directory paths of its walk, if the walk was clean
    ensures manifestPath != "" && stat == Ok(true) ==> (o.submitted.Some? <==> WalkClean(walk))
    ensures manifestPath != "" && stat == Ok(true) && WalkClean(walk) ==>
              o.submitted == Some(ManifestPaths(walk))
    ensures manifestPath != "" && stat == Ok(true) && !WalkClean(walk) ==>
              o.err == Some(WalkFailed(walk[FirstFault(walk)].path, walk[FirstFault(walk)].cause))
    // the rule engine's verdict is passed through unchanged
    ensures o.submitted.Some? ==> o.err == validate(o.submitted.value)
    ensures o.err.None? ==> o.submitted.Some?
  {
    if manifestPath == "" then Outcome(None, Some(EmptyManifestPath))
    else
      match stat
      case Err(cause) => Outcome(None, Some(StatFailed(cause)))
      case Ok(isDir) =>
        var manifests :=
          if isDir then GetManifests(walk) else Ok([manifestPath]);
        match manifests
        case Err(e) => Outcome(None, Some(e))
        case Ok(ms) => Outcome(Some(ms), validate(ms))
  }

  /** The manifest list of a concatenated walk is the concatenation of the
      lists: nothing is reordered, dropped or added across the seam. */
  lemma {:induction false} ManifestPathsAppend(a: seq<Entry>, b: seq<Entry>)
    ensures ManifestPaths(a + b) == ManifestPaths(a) + ManifestPaths(b)
  {
    if a == [] {
      assert a + b == b;
    } else {
      assert (a + b)[1..] == a[1..] + b;
      ManifestPathsAppend(a[1..], b);
    }
  }

  /** Each non-directory entry appears in the list, at the position given by
      the number of non-directory entries visited before it. */
  lemma ManifestPathsComplete(walk: seq<Entry>, i: int)
    requires 0 <= i < |walk| && IsManifest(walk[i])
    ensures |ManifestPaths(walk[..i])| < |ManifestPaths(walk)|
    ensures ManifestPaths(walk)[|ManifestPaths(walk[..i])|] == walk[i].path
  {
    assert walk == walk[..i] + ([walk[i]] + walk[i + 1..]);
    ManifestPathsAppend(walk[..i], [walk[i]] + walk[i + 1..]);
    ManifestPathsAppend([walk[i]], walk[i + 1..]);
  }

  /** Every listed path is that of a non-directory entry, and the j-th path
      comes from the entry preceded by exactly j non-directory entries. */
  lemma {:induction false} ManifestPathsSound(walk: seq<Entry>, j: int)
    requires 0 <= j < |ManifestPaths(walk)|
    ensures exists i :: 0 <= i < |walk| && IsManifest(walk[i])
              && walk[i].path == ManifestPaths(walk)[j]
              && |ManifestPaths(walk[..i])| == j
  {
    if IsManifest(walk[0]) && j == 0 {
      assert walk[..0] == [];
      assert IsManifest(walk[0]) && walk[0].path == ManifestPaths(walk)[j]
             && |ManifestPaths(walk[..0])| == j;
    } else {
      var off := if IsManifest(walk[0]) then 1 else 0;
      ManifestPathsSound(walk[1..], j - off);
      var i :| 0 <= i < |walk[1..]| && IsManifest(walk[1..][i])
               && walk[1..][i].path == ManifestPaths(walk[1..])[j - off]
               && |ManifestPaths(walk[1..][..i])| == j - off;
      assert walk[..i + 1] == [walk[0]] + walk[1..][..i];
      ManifestPathsAppend([walk[0]], walk[1..][..i]);
      assert IsManifest(walk[i + 1]) && walk[i + 1].path == ManifestPaths(walk)[j]
             && |ManifestPaths(walk[..i + 1])| == j;
    }
  }

  /** In a walk that visits each path once, no directory path is listed.
      Only visited entries need distinct paths: a directory whose listing
      fails is reported a second time, as a fault at the same path. */
  lemma ManifestPathsExcludeDirectories(walk: seq<Entry>, d: int)
    requires forall i, k :: 0 <= i < k < |walk| && walk[i].Visited? && walk[k].Visited? ==>
               walk[i].path != walk[k].path
    requires 0 <= d < |walk| && walk[d].Visited? && walk[d].isDir
    ensures walk[d].path !in ManifestPaths(walk)
  {
    if walk[d].path in ManifestPaths(walk) {
      var j :| 0 <= j < |ManifestPaths(walk)| && ManifestPaths(walk)[j] == walk[d].path;
      ManifestPathsSound(walk, j);
    }
  }

  /** An empty path is refused whatever the filesystem and the rule engine
      would have said: neither is consulted. */
  lemma EmptyPathTouchesNothing(
    stat1: Result<bool, string>, walk1: seq<Entry>, validate1: seq<string> -> Option<Error>,
    stat2: Result<bool, string>, walk2: seq<Entry>, validate2: seq<string> -> Option<Error>)
    ensures Run("", stat1, walk1, validate1) == Run("", stat2, walk2, validate2)
  {
  }

  /** A failed stat is reported whatever the walk and the rule engine would
      have produced: neither is consulted. */
  lemma StatFailureStopsRun(
    manifestPath: string, cause: string,
    walk1: seq<Entry>, validate1: seq<string> -> Option<Error>,
    walk2: seq<Entry>, validate2: seq<string> -> Option<Error>)
    requires manifestPath != ""
    ensures Run(manifestPath, Err(cause), walk1, validate1) == Run(manifestPath, Err(cause), walk2, validate2)
  {
  }

  /** A single file is validated on its own, and the walk is not consulted. */
  lemma SingleFileRun(
    manifestPath: string, walk: seq<Entry>, validate: seq<string> -> Option<Error>)
    requires manifestPath != ""
    ensures Run(manifestPath, Ok(false), walk, validate) == Outcome(Some([manifestPath]), validate([manifestPath]))
  {
  }

  /** A walk error anywhere fails the run without any validation, and the
      error names the first faulty entry. */
  lemma WalkFaultFailsRun(
    manifestPath: string, walk: seq<Entry>, validate: seq<string> -> Option<Error>, i: int)
    requires manifestPath != ""
    requires 0 <= i < |walk| && walk[i].Fault?
    ensures var o := Run(manifestPath, Ok(true), walk, validate);
            o.submitted == None && o.err.Some? && o.err.value.WalkFailed?
  {
  }
}
