/**
 * The session browser's state (src/main.rs): the list, the highlighted row
 * and the status line, plus the two pure selections the commands make, the
 * current directory's session and the displayed project name.
 */
module Browser {
  import opened Common
  import opened Os
  import opened Sessions
  import opened Exporter

  // ---------------------------------------------------------------------
  // Moving the highlight

  /** One row down, wrapping from the last row to the first. */
  function NextIndex(i: nat, n: nat): (r: nat)
    requires n > 0
    ensures r < n
    ensures i + 1 < n ==> r == i + 1
    ensures i + 1 == n ==> r == 0
  {
    (i + 1) % n
  }

  /** One row up, wrapping from the first row to the last. */
  function PrevIndex(i: nat, n: nat): (r: nat)
    requires n > 0
    ensures i < n ==> r < n
    ensures 0 < i ==> r + 1 == i
    ensures i == 0 ==> r == n - 1
  {
    if i == 0 then n - 1 else i - 1
  }

  /** On a row that exists, up undoes down and down undoes up. */
  lemma NavigationInverse(i: nat, n: nat)
    requires i < n
    ensures PrevIndex(NextIndex(i, n), n) == i
    ensures NextIndex(PrevIndex(i, n), n) == i
  {
  }

  /** `k` presses of "down" from row `i`. */
  function NextSteps(i: nat, n: nat, k: nat): nat
    requires n > 0
  {
    if k == 0 then i else NextIndex(NextSteps(i, n, k - 1), n)
  }

  /** Below the last row, each press moves exactly one row down. */
  lemma {:induction false} NextStepsClimb(i: nat, n: nat, k: nat)
    requires i + k < n
    ensures NextSteps(i, n, k) == i + k
  {
    if k > 0 {
      NextStepsClimb(i, n, k - 1);
    }
  }

  /** Presses compose: `a + b` presses are `a` presses followed by `b`. */
  lemma {:induction false} NextStepsCompose(i: nat, n: nat, a: nat, b: nat)
    requires n > 0
    ensures NextSteps(i, n, a + b) == NextSteps(NextSteps(i, n, a), n, b)
  {
    if b > 0 {
      NextStepsCompose(i, n, a, b - 1);
    }
  }

  /** Pressing "down" once per row comes back to the starting row. */
  lemma FullCycleReturns(i: nat, n: nat)
    requires i < n
    ensures NextSteps(i, n, n) == i
  {
    var toLast := n - 1 - i;
    NextStepsClimb(i, n, toLast);
    NextStepsCompose(i, n, toLast, 1);
    assert NextSteps(i, n, toLast + 1) == 0;
    NextStepsCompose(i, n, toLast + 1, i);
    NextStepsClimb(0, n, i);
  }

  /** The highlight after a reload: pulled onto the last row only if it fell off a non-empty list. */
  function Clamped(i: nat, n: nat): (r: nat)
    ensures n > 0 ==> r < n
    ensures i < n ==> r == i
    ensures n == 0 ==> r == i
    ensures n > 0 && i >= n ==> r == n - 1
  {
    if i >= n && n > 0 then n - 1 else i
  }

  // ---------------------------------------------------------------------
  // The current directory's session

  /**
   * `filter(project_path == current).max_by_key(last_modified)`: the index of
   * a newest session recorded at exactly `path`, the last one on ties.
   */
  function BestMatch(catalog: seq<Session>, path: string): (r: Option<nat>)
    ensures r.None? <==> forall i :: 0 <= i < |catalog| ==> catalog[i].projectPath != path
    ensures r.Some? ==>
      r.value < |catalog| && catalog[r.value].projectPath == path &&
      (forall i :: 0 <= i < |catalog| && catalog[i].projectPath == path ==>
        catalog[i].lastModified <= catalog[r.value].lastModified) &&
      (forall i :: r.value < i < |catalog| && catalog[i].projectPath == path ==>
        catalog[i].lastModified < catalog[r.value].lastModified)
  {
    if catalog == [] then None
    else
      var last := |catalog| - 1;
      var earlier := BestMatch(catalog[..last], path);
      if catalog[last].projectPath != path then earlier
      else if earlier.None? || catalog[earlier.value].lastModified <= catalog[last].lastModified then Some(last)
      else earlier
  }

  /** The session `max_by_key` picks: none iff no session is at `path`, otherwise a newest one there. */
  function CurrentSession(catalog: seq<Session>, path: string): (r: Option<Session>)
    ensures r.None? <==> forall s :: s in catalog ==> s.projectPath != path
    ensures r.Some? ==> r.value in catalog && r.value.projectPath == path
    ensures r.Some? ==> forall s :: s in catalog && s.projectPath == path ==> s.lastModified <= r.value.lastModified
  {
    match BestMatch(catalog, path)
    case None => None
    case Some(i) => Some(catalog[i])
  }

  /**
   * In a catalog sorted newest first, the chosen session carries the
   * timestamp of the first match and is the last match sharing it.
   */
  lemma BestMatchInNewestFirst(catalog: seq<Session>, path: string, first: nat)
    requires NewestFirst(catalog)
    requires first < |catalog| && catalog[first].projectPath == path
    requires forall i :: 0 <= i < first ==> catalog[i].projectPath != path
    ensures CurrentSession(catalog, path).Some?
    ensures CurrentSession(catalog, path).value.lastModified == catalog[first].lastModified
    ensures first <= BestMatch(catalog, path).value
  {
  }

  // ---------------------------------------------------------------------
  // The displayed project name

  /** `project_path.split('/').last()`: what follows the last '/', or the whole path. */
  function ProjectName(path: string): (r: string)
    ensures '/' !in r
    ensures |r| <= |path| && r == path[|path| - |r|..]
    ensures |r| < |path| ==> path[|path| - |r| - 1] == '/'
  {
    if path == [] || path[|path| - 1] == '/' then []
    else ProjectName(path[..|path| - 1]) + [path[|path| - 1]]
  }

  /** A path without '/' is its own name. */
  lemma ProjectNameWithoutSlash(path: string)
    requires '/' !in path
    ensures ProjectName(path) == path
  {
  }

  /** The name of `dir + "/" + leaf` is `leaf` for a leaf without '/'. */
  lemma {:induction false} ProjectNameOfChild(dir: string, leaf: string)
    requires '/' !in leaf
    ensures ProjectName(dir + "/" + leaf) == leaf
  {
    if leaf == [] {
      assert (dir + "/" + leaf)[|dir + "/" + leaf| - 1] == '/';
    } else {
      var last := |leaf| - 1;
      assert (dir + "/" + leaf)[..|dir + "/" + leaf| - 1] == dir + "/" + leaf[..last];
      assert '/' !in leaf[..last] by {
        assert forall j :: 0 <= j < last ==> leaf[..last][j] == leaf[j];
      }
      ProjectNameOfChild(dir, leaf[..last]);
      assert leaf[..last] + [leaf[last]] == leaf;
    }
  }

  // ---------------------------------------------------------------------
  // The browser state

  class App {
    var sessions: seq<Session>
    var selected: nat
    var message: Option<string>

    /** The highlight is on a row, unless there are no rows. */
    predicate Valid()
      reads this
    {
      sessions == [] || selected < |sessions|
    }

    /** `App::new` once the catalog has been gathered. */
    constructor (catalog: seq<Session>)
      ensures sessions == catalog && selected == 0 && message == None
      ensures Valid()
    {
      sessions := catalog;
      selected := 0;
      message := None;
    }

    method SelectNext()
      requires Valid()
      modifies this
      ensures Valid()
      ensures sessions == old(sessions) && message == old(message)
      ensures sessions == [] ==> selected == old(selected)
      ensures sessions != [] ==> selected == NextIndex(old(selected), |sessions|)
    {
      if sessions != [] {
        selected := (selected + 1) % |sessions|;
      }
    }

    method SelectPrev()
      requires Valid()
      modifies this
      ensures Valid()
      ensures sessions == old(sessions) && message == old(message)
      ensures sessions == [] ==> selected == old(selected)
      ensures sessions != [] ==> selected == PrevIndex(old(selected), |sessions|)
    {
      if sessions != [] {
        if selected == 0 {
          selected := |sessions| - 1;
        } else {
          selected := selected - 1;
        }
      }
    }

    /** `reload_sessions` given the outcome of a fresh scan. */
    method ReloadSessions(scan: Result<seq<Session>, ScanError>) returns (r: Result<Unit, ScanError>)
      requires Valid()
      modifies this
      ensures Valid()
      ensures message == old(message)
      ensures scan.Failure? ==> r == Failure(scan.error) && sessions == old(sessions) && selected == old(selected)
      ensures scan.Success? ==> r == Success(Unit) && sessions == scan.value && selected == Clamped(old(selected), |scan.value|)
    {
      if scan.Failure? {
        return Failure(scan.error);
      }
      sessions := scan.value;
      if selected >= |sessions| && |sessions| > 0 {
        selected := |sessions| - 1;
      }
      r := Success(Unit);
    }

    /**
     * `export_selected`: export the highlighted session to the default
     * directory; only a successful export changes the status line. With the
     * highlight on a row, an empty list is the only case that does nothing.
     */
    method ExportSelected(env: Env, clock: Clock, t: CharTables, render: Container -> string, disk: Disk)
      returns (r: Result<Unit, ExportError>, after: Disk)
      requires Valid()
      modifies this
      ensures Valid()
      ensures sessions == old(sessions) && selected == old(selected)
      ensures sessions == [] ==> r == Success(Unit) && after == disk && message == old(message)
      ensures sessions != [] ==>
        var (exported, d) := ExportSession(sessions[selected], None, env, clock, t, render, disk);
        after == d &&
        (exported.Success? ==> r == Success(Unit) && message == Some("Exported to: " + exported.value)) &&
        (exported.Failure? ==> r == Failure(exported.error) && message == old(message))
    {
      if selected >= |sessions| {
        return Success(Unit), disk;
      }
      var outcome := ExportSession(sessions[selected], None, env, clock, t, render, disk);
      after := outcome.1;
      if outcome.0.Failure? {
        return Failure(outcome.0.error), after;
      }
      message := Some("Exported to: " + outcome.0.value);
      r := Success(Unit);
    }
  }
}
