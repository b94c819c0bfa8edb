/**
 * The vendor synchroniser: for each entry of the dependency manifest, in
 * order, bring the working copy under .gopath/src to the pinned revision,
 * cloning or fetching only when needed; skip incomplete entries and entries
 * for other version-control systems, and stop at the first failure of the
 * filesystem or of git.
 */
module SyncVendor {
  import opened Paths
  import opened Text
  import opened Workspace

  /** One manifest entry. */
  datatype Dependency = Dependency(importPath: string, repository: string, vcs: string, revision: string)

  /** The dependency file as reading it at wd/vendor/manifest turned out. */
  datatype Manifest = Decoded(dependencies: seq<Dependency>) | Unopenable | Undecodable

  predicate Complete(dep: Dependency) {
    dep.importPath != "" && dep.repository != "" && dep.revision != ""
  }

  /** "git" and the empty string both mean git. */
  predicate SupportedVcs(dep: Dependency) {
    dep.vcs == "git" || dep.vcs == ""
  }

  /** An entry the synchroniser acts on rather than skips. */
  predicate Eligible(dep: Dependency) {
    Complete(dep) && SupportedVcs(dep)
  }

  /** Where each import path goes when the working directory is `wd`. */
  function Placement(wd: string): string -> Path {
    importPath => Destination(wd, importPath)
  }

  datatype Skip = Incomplete | UnsupportedVcs
  datatype Stage = CreateParent | StatDestination | CloneRepository | FetchRefs | CheckoutRevision

  /** How one entry ended. */
  datatype Status = Skipped(reason: Skip) | UpToDate | CheckedOut | Failed(stage: Stage)

  /** The commands one entry issued, the world they left, and how the entry ended. */
  datatype Step = Step(cmds: seq<Cmd>, local: Local, status: Status)

  datatype Failure = WorkingDirectory | OpenManifest | DecodeManifest | EntryFailed(index: nat, stage: Stage)
  datatype Outcome = Ok | Err(failure: Failure)

  /** The commands a run issued, in order, the world it left, and what it returned. */
  datatype Report = Report(trace: seq<Cmd>, local: Local, outcome: Outcome)

  /** matchesRevision: rev-parse HEAD succeeded and its output, trimmed, is the revision. */
  predicate MatchesRevision(local: Local, dir: Path, revision: string) {
    var out := HeadOutput(local, dir);
    out.Some? && TrimSpace(out.value) == revision
  }

  /** revExists: the revision resolves to a commit in the working copy. */
  predicate RevExists(local: Local, dir: Path, revision: string) {
    revision in Resolvable(local, dir)
  }

  /** The final forced checkout; `cmds` is what the entry issued, ending with it. */
  function CheckoutStep(dest: Path, revision: string, cmds: seq<Cmd>, local: Local, git: Git): Step {
    var co := Checkout(dest, revision);
    if Fails(co, local, git) then Step(cmds, local, Failed(CheckoutRevision))
    else Step(cmds, Apply(co, local, git), CheckedOut)
  }

  /**
   * What handling one manifest entry does, stated as a function of the world
   * before it; `dest` is where the entry goes, place(dep.importPath). mkdir
   * and clone fail only where the oracle says so; fetch and checkout also fail
   * outside a working copy (see Fails).
   */
  function Reconcile(dest: Path, dep: Dependency, local: Local, git: Git): Step {
    if !Complete(dep) then Step([], local, Skipped(Incomplete))
    else if !SupportedVcs(dep) then Step([], local, Skipped(UnsupportedVcs))
    else
      var mk := MkdirAll(Parent(dest));
      if mk in git.fails then Step([mk], local, Failed(CreateParent))
      else
        var made := Apply(mk, local, git);
        match Stat(made, dest)
        case NotExist => CloneFresh(dest, dep, mk, made, git)
        case StatError => Step([mk], made, Failed(StatDestination))
        case Exists => Update(dest, dep, mk, made, git)
  }

  /** An entry whose destination does not exist yet, after `mk` created its parent. */
  function CloneFresh(dest: Path, dep: Dependency, mk: Cmd, local: Local, git: Git): Step {
    var cl := Clone(dep.repository, dest);
    if cl in git.fails then Step([mk, cl], local, Failed(CloneRepository))
    else CheckoutStep(dest, dep.revision, [mk, cl, Checkout(dest, dep.revision)], Apply(cl, local, git), git)
  }

  /** An entry whose destination exists, after `mk` created its parent. */
  function Update(dest: Path, dep: Dependency, mk: Cmd, local: Local, git: Git): Step {
    var rp := RevParseHead(dest);
    if MatchesRevision(local, dest, dep.revision) then Step([mk, rp], local, UpToDate)
    else
      var rv := RevVerify(dest, dep.revision);
      if RevExists(local, dest, dep.revision) then
        CheckoutStep(dest, dep.revision, [mk, rp, rv, Checkout(dest, dep.revision)], local, git)
      else
        var f := Fetch(dest);
        if Fails(f, local, git) then Step([mk, rp, rv, f], local, Failed(FetchRefs))
        else CheckoutStep(dest, dep.revision, [mk, rp, rv, f, Checkout(dest, dep.revision)], Apply(f, local, git), git)
  }

  /**
   * What a run over `deps` does, one entry after the other: the report of the
   * run over all but the last entry, extended by the last entry unless the
   * run had already stopped.
   */
  function Sync(place: string -> Path, deps: seq<Dependency>, local: Local, git: Git): Report
    decreases |deps|
  {
    if deps == [] then Report([], local, Ok)
    else
      var before := Sync(place, deps[..|deps| - 1], local, git);
      if before.outcome.Err? then before
      else
        var dep := deps[|deps| - 1];
        Extend(before, |deps| - 1, Reconcile(place(dep.importPath), dep, before.local, git))
  }

  /** A run extended by entry `index`, which ended as `s`. */
  function Extend(before: Report, index: nat, s: Step): Report {
    Report(before.trace + s.cmds, s.local, if s.status.Failed? then Err(EntryFailed(index, s.status.stage)) else Ok)
  }

  lemma SyncStep(place: string -> Path, deps: seq<Dependency>, i: nat, local: Local, git: Git)
    requires i < |deps|
    requires Sync(place, deps[..i], local, git).outcome.Ok?
    ensures Sync(place, deps[..i + 1], local, git) ==
      Extend(Sync(place, deps[..i], local, git), i,
             Reconcile(place(deps[i].importPath), deps[i], Sync(place, deps[..i], local, git).local, git))
  {
    assert deps[..i + 1][..i] == deps[..i];
  }

  /** The world in which entry `i` is handled, if the run gets that far. */
  function StateBefore(place: string -> Path, deps: seq<Dependency>, i: nat, local: Local, git: Git): Local
    requires i <= |deps|
  {
    Sync(place, deps[..i], local, git).local
  }

  predicate EntryFails(place: string -> Path, deps: seq<Dependency>, i: nat, local: Local, git: Git)
    requires i < |deps|
  {
    Reconcile(place(deps[i].importPath), deps[i], StateBefore(place, deps, i, local, git), git).status.Failed?
  }

  /** The forced checkout that ends every entry not already at its revision. */
  method ForceCheckout(dest: Path, revision: string, issued: seq<Cmd>, local0: Local, git: Git)
    returns (cmds: seq<Cmd>, local: Local, status: Status)
    ensures Step(cmds, local, status) == CheckoutStep(dest, revision, issued + [Checkout(dest, revision)], local0, git)
  {
    var co := Checkout(dest, revision);
    cmds, local := issued + [co], local0;
    if Fails(co, local, git) {
      return cmds, local, Failed(CheckoutRevision);
    }
    local := Apply(co, local, git);
    status := CheckedOut;
  }

  /**
   * The body of the synchroniser's loop for one entry whose destination is
   * `dest`: the commands it issues, the world it leaves, and whether it went
   * on (`continue` or falling through) or stopped the run.
   */
  method SyncEntry(dest: Path, dep: Dependency, local0: Local, git: Git)
    returns (cmds: seq<Cmd>, local: Local, status: Status)
    ensures Step(cmds, local, status) == Reconcile(dest, dep, local0, git)
  {
    cmds, local := [], local0;
    if dep.importPath == "" || dep.repository == "" || dep.revision == "" {
      return cmds, local, Skipped(Incomplete);
    }
    if dep.vcs != "git" && dep.vcs != "" {
      return cmds, local, Skipped(UnsupportedVcs);
    }
    var mk := MkdirAll(Parent(dest));
    cmds := cmds + [mk];
    if mk in git.fails {
      return cmds, local, Failed(CreateParent);
    }
    local := Apply(mk, local, git);
    var st := Stat(local, dest);
    if st == NotExist {
      cmds, local, status := CloneMissing(dest, dep, mk, local, git);
    } else if st == Exists {
      cmds, local, status := UpdateExisting(dest, dep, mk, local, git);
    } else {
      status := Failed(StatDestination);
    }
  }

  /** Clone into a missing destination, then check the revision out; `mk` is the mkdir that came first. */
  method CloneMissing(dest: Path, dep: Dependency, mk: Cmd, local0: Local, git: Git)
    returns (cmds: seq<Cmd>, local: Local, status: Status)
    ensures Step(cmds, local, status) == CloneFresh(dest, dep, mk, local0, git)
  {
    var cl := Clone(dep.repository, dest);
    cmds, local := [mk], local0;
    cmds := cmds + [cl];
    if cl in git.fails {
      return cmds, local, Failed(CloneRepository);
    }
    local := Apply(cl, local, git);
    cmds, local, status := ForceCheckout(dest, dep.revision, cmds, local, git);
  }

  /**
   * Bring an existing destination to the revision, fetching only when it is
   * unknown there; `mk` is the mkdir that came first.
   */
  method UpdateExisting(dest: Path, dep: Dependency, mk: Cmd, local0: Local, git: Git)
    returns (cmds: seq<Cmd>, local: Local, status: Status)
    ensures Step(cmds, local, status) == Update(dest, dep, mk, local0, git)
  {
    cmds, local := [mk], local0;
    cmds := cmds + [RevParseHead(dest)];
    if MatchesRevision(local, dest, dep.revision) {
      return cmds, local, UpToDate;
    }
    cmds := cmds + [RevVerify(dest, dep.revision)];
    if !RevExists(local, dest, dep.revision) {
      var f := Fetch(dest);
      cmds := cmds + [f];
      if Fails(f, local, git) {
        return cmds, local, Failed(FetchRefs);
      }
      local := Apply(f, local, git);
    }
    cmds, local, status := ForceCheckout(dest, dep.revision, cmds, local, git);
  }

  /**
   * The synchroniser's main loop. `wd` is what os.Getwd returned (None if it
   * failed) and `manifest` what reading and decoding the manifest gave.
   */
  method Run(wd: Option<string>, manifest: Manifest, local0: Local, git: Git)
    returns (trace: seq<Cmd>, local: Local, outcome: Outcome)
    ensures wd.None? ==> trace == [] && local == local0 && outcome == Err(WorkingDirectory)
    ensures wd.Some? && manifest.Unopenable? ==> trace == [] && local == local0 && outcome == Err(OpenManifest)
    ensures wd.Some? && manifest.Undecodable? ==> trace == [] && local == local0 && outcome == Err(DecodeManifest)
    ensures wd.Some? && manifest.Decoded? ==>
      Report(trace, local, outcome) == Sync(Placement(wd.value), manifest.dependencies, local0, git)
  {
    trace, local := [], local0;
    if wd.None? {
      return trace, local, Err(WorkingDirectory);
    }
    if manifest.Unopenable? {
      return trace, local, Err(OpenManifest);
    }
    if manifest.Undecodable? {
      return trace, local, Err(DecodeManifest);
    }
    var place := Placement(wd.value);
    var deps := manifest.dependencies;
    for i := 0 to |deps|
      invariant Report(trace, local, Ok) == Sync(place, deps[..i], local0, git)
    {
      SyncStep(place, deps, i, local0, git);
      var cmds, status;
      var dep := deps[i];
      cmds, local, status := SyncEntry(place(dep.importPath), dep, local, git);
      trace := trace + cmds;
      if status.Failed? {
        outcome := Err(EntryFailed(i, status.stage));
        AbortIsFinal(place, deps, i + 1, local0, git);
        return;
      }
    }
    assert deps[..|deps|] == deps;
    outcome := Ok;
  }

  /** Once a run has stopped, later entries add nothing: no command, no change. */
  lemma {:induction false} AbortIsFinal(place: string -> Path, deps: seq<Dependency>, k: nat, local: Local, git: Git)
    requires k <= |deps|
    requires Sync(place, deps[..k], local, git).outcome.Err?
    ensures Sync(place, deps, local, git) == Sync(place, deps[..k], local, git)
    decreases |deps|
  {
    if k == |deps| {
      assert deps[..k] == deps;
    } else {
      var n := |deps| - 1;
      assert deps[..n][..k] == deps[..k];
      AbortIsFinal(place, deps[..n], k, local, git);
      ErrorSticks(place, deps, local, git);
    }
  }

  /** A run that stopped before its last entry is the run without that entry. */
  lemma ErrorSticks(place: string -> Path, deps: seq<Dependency>, local: Local, git: Git)
    requires deps != [] && Sync(place, deps[..|deps| - 1], local, git).outcome.Err?
    ensures Sync(place, deps, local, git) == Sync(place, deps[..|deps| - 1], local, git)
  {
  }
}
