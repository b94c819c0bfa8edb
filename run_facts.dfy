/**
 * What a whole run does, as properties of Sync, the function Run is proved
 * to compute: where it stops and what it returns, the order of the commands
 * it issues, and that a second run over a world the first one left is quiet.
 * `place` maps an import path to its destination; Run uses Placement(wd).
 */
module RunFacts {
  import opened Paths
  import opened Workspace
  import opened SyncVendor
  import opened EntryFacts

  /** A run fails only because one of its entries failed. */
  lemma {:induction false} OnlyEntriesFail(place: string -> Path, deps: seq<Dependency>, local: Local, git: Git)
    ensures Sync(place, deps, local, git).outcome.Err? ==> Sync(place, deps, local, git).outcome.failure.EntryFailed?
    decreases |deps|
  {
    if deps != [] {
      OnlyEntriesFail(place, deps[..|deps| - 1], local, git);
    }
  }

  /** The entry a run reports as failed is the first that failed; the run ends right after it. */
  lemma {:induction false} FailureIndex(place: string -> Path, deps: seq<Dependency>, i: nat, stage: Stage,
                                        local: Local, git: Git)
    requires Sync(place, deps, local, git).outcome == Err(EntryFailed(i, stage))
    ensures i < |deps| && Sync(place, deps[..i], local, git).outcome == Ok
    ensures Sync(place, deps, local, git) == Sync(place, deps[..i + 1], local, git)
    decreases |deps|
  {
    var n := |deps| - 1;
    if Sync(place, deps[..n], local, git).outcome.Err? {
      assert Sync(place, deps, local, git) == Sync(place, deps[..n], local, git);
      FailureIndex(place, deps[..n], i, stage, local, git);
      assert deps[..n][..i] == deps[..i];
      assert deps[..n][..i + 1] == deps[..i + 1];
    } else {
      FailureInLast(place, deps, i, stage, local, git);
    }
  }

  /** A run whose entries before the last ran without failure can only have failed at the last. */
  lemma FailureInLast(place: string -> Path, deps: seq<Dependency>, i: nat, stage: Stage, local: Local, git: Git)
    requires deps != [] && Sync(place, deps[..|deps| - 1], local, git).outcome == Ok
    requires Sync(place, deps, local, git).outcome == Err(EntryFailed(i, stage))
    ensures i == |deps| - 1 && Sync(place, deps, local, git) == Sync(place, deps[..i + 1], local, git)
  {
    SyncStep(place, deps, |deps| - 1, local, git);
    assert deps[..|deps|] == deps;
  }

  /**
   * A run that returns an error for entry `i` at some stage ran every entry
   * before `i` without failure, failed entry `i` at that stage, and issued
   * nothing after it.
   */
  lemma StopsAtFirstFailure(place: string -> Path, deps: seq<Dependency>, i: nat, stage: Stage, local: Local, git: Git)
    requires Sync(place, deps, local, git).outcome == Err(EntryFailed(i, stage))
    ensures i < |deps| && Sync(place, deps[..i], local, git).outcome == Ok
    ensures Reconcile(place(deps[i].importPath), deps[i], StateBefore(place, deps, i, local, git), git).status
            == Failed(stage)
    ensures Sync(place, deps, local, git) == Sync(place, deps[..i + 1], local, git)
  {
    FailureIndex(place, deps, i, stage, local, git);
    SyncStep(place, deps, i, local, git);
  }

  /** A run that returns nil returns nil over every prefix of the manifest too. */
  lemma OkPrefix(place: string -> Path, deps: seq<Dependency>, k: nat, local: Local, git: Git)
    requires k <= |deps| && Sync(place, deps, local, git).outcome == Ok
    ensures Sync(place, deps[..k], local, git).outcome == Ok
  {
    if Sync(place, deps[..k], local, git).outcome.Err? {
      AbortIsFinal(place, deps, k, local, git);
    }
  }

  /** In a run that returns nil, entry `i` did not fail. */
  lemma OkMeansEntryOk(place: string -> Path, deps: seq<Dependency>, i: nat, local: Local, git: Git)
    requires i < |deps| && Sync(place, deps, local, git).outcome == Ok
    ensures !EntryFails(place, deps, i, local, git)
  {
    OkPrefix(place, deps, i + 1, local, git);
    OkPrefix(place, deps, i, local, git);
    SyncStep(place, deps, i, local, git);
  }

  /**
   * A run returns nil exactly when no entry failed in the world the entries
   * before it left: skipped entries never make it fail.
   */
  lemma OkIffNoEntryFails(place: string -> Path, deps: seq<Dependency>, local: Local, git: Git)
    ensures Sync(place, deps, local, git).outcome == Ok <==>
      forall i | 0 <= i < |deps| :: !EntryFails(place, deps, i, local, git)
  {
    var r := Sync(place, deps, local, git);
    if r.outcome == Ok {
      forall i | 0 <= i < |deps| {
        OkMeansEntryOk(place, deps, i, local, git);
      }
    } else {
      OnlyEntriesFail(place, deps, local, git);
      var i := r.outcome.failure.index;
      StopsAtFirstFailure(place, deps, i, r.outcome.failure.stage, local, git);
      assert EntryFails(place, deps, i, local, git);
    }
  }

  /** A manifest none of whose entries is eligible issues nothing, changes nothing and returns nil. */
  lemma {:induction false} AllSkippedIsOk(place: string -> Path, deps: seq<Dependency>, local: Local, git: Git)
    requires forall i | 0 <= i < |deps| :: !Eligible(deps[i])
    ensures Sync(place, deps, local, git) == Report([], local, Ok)
    decreases |deps|
  {
    if deps != [] {
      var n := |deps| - 1;
      AllSkippedIsOk(place, deps[..n], local, git);
      SkipsExactlyIneligible(place(deps[n].importPath), deps[n], local, git);
    }
  }

  /**
   * Entries are handled in manifest order: the commands of a run over a prefix
   * of the manifest come first in the commands of the run over all of it.
   */
  lemma {:induction false} TracePrefix(place: string -> Path, deps: seq<Dependency>, k: nat, local: Local, git: Git)
    requires k <= |deps|
    ensures Sync(place, deps[..k], local, git).trace <= Sync(place, deps, local, git).trace
    decreases |deps|
  {
    if k == |deps| {
      assert deps[..k] == deps;
    } else {
      var n := |deps| - 1;
      TracePrefix(place, deps[..n], k, local, git);
      assert deps[..n][..k] == deps[..k];
    }
  }

  /**
   * No eligible entry's destination is, or lies above, another's. In the
   * model git finds a repository only at the directory it runs in, so a
   * destination nested in another entry's working copy is out of its scope.
   */
  predicate SeparateDestinations(place: string -> Path, deps: seq<Dependency>) {
    forall i, j | 0 <= i < |deps| && 0 <= j < |deps| && i != j && Eligible(deps[i]) && Eligible(deps[j]) ::
      !(place(deps[i].importPath) <= place(deps[j].importPath))
  }

  /** Every eligible entry of the manifest is settled in `local`. */
  predicate AllSettled(place: string -> Path, deps: seq<Dependency>, local: Local, git: Git) {
    forall i | 0 <= i < |deps| && Eligible(deps[i]) :: Settled(place(deps[i].importPath), deps[i], local, git)
  }

  /** Settledness depends only on the destination and its parent. */
  lemma SettledFrame(dest: Path, dep: Dependency, local: Local, after: Local, git: Git)
    requires Settled(dest, dep, local, git)
    requires dest in after && after[dest] == local[dest] && Parent(dest) in after
    ensures Settled(dest, dep, after, git)
  {
    assert HeadOutput(after, dest) == HeadOutput(local, dest);
  }

  /** A run that returns nil leaves every eligible entry settled, when no destination lies in another. */
  lemma {:induction false} SyncSettles(place: string -> Path, deps: seq<Dependency>, local: Local, git: Git)
    requires SeparateDestinations(place, deps)
    requires Sync(place, deps, local, git).outcome == Ok
    ensures AllSettled(place, deps, Sync(place, deps, local, git).local, git)
    decreases |deps|
  {
    if deps != [] {
      var n := |deps| - 1;
      var before := Sync(place, deps[..n], local, git);
      var dest := place(deps[n].importPath);
      var s := Reconcile(dest, deps[n], before.local, git);
      assert before.outcome == Ok;
      assert Sync(place, deps, local, git) == Extend(before, n, s);
      SyncSettles(place, deps[..n], local, git);
      ReconcileFrame(dest, deps[n], before.local, git);
      forall i | 0 <= i < |deps| && Eligible(deps[i])
        ensures Settled(place(deps[i].importPath), deps[i], s.local, git)
      {
        if i == n {
          SucceededSettles(dest, deps[n], before.local, git);
        } else {
          assert deps[..n][i] == deps[i];
          SettledFrame(place(deps[i].importPath), deps[i], before.local, s.local, git);
        }
      }
    }
  }

  /**
   * A run over a world in which every eligible entry is settled issues no
   * clone and no fetch, changes nothing and returns nil.
   */
  lemma {:induction false} QuietWhenSettled(place: string -> Path, deps: seq<Dependency>, local: Local, git: Git)
    requires AllSettled(place, deps, local, git)
    ensures var r := Sync(place, deps, local, git);
      && r.local == local && r.outcome == Ok
      && (forall c | c in r.trace :: !c.Clone? && !c.Fetch?)
    decreases |deps|
  {
    if deps != [] {
      var n := |deps| - 1;
      forall i | 0 <= i < n && Eligible(deps[..n][i])
        ensures Settled(place(deps[..n][i].importPath), deps[..n][i], local, git)
      {
        assert deps[..n][i] == deps[i];
      }
      QuietWhenSettled(place, deps[..n], local, git);
      var dest := place(deps[n].importPath);
      if Eligible(deps[n]) {
        SettledIsQuiet(dest, deps[n], local, git);
      } else {
        SkipsExactlyIneligible(dest, deps[n], local, git);
      }
    }
  }

  /**
   * Running the synchroniser a second time over what a successful run left
   * returns nil, issues no clone and no fetch, and leaves the world as it was.
   */
  lemma Idempotent(place: string -> Path, deps: seq<Dependency>, local: Local, git: Git)
    requires SeparateDestinations(place, deps)
    requires Sync(place, deps, local, git).outcome == Ok
    ensures var first := Sync(place, deps, local, git);
      var second := Sync(place, deps, first.local, git);
      && second.outcome == Ok && second.local == first.local
      && (forall c | c in second.trace :: !c.Clone? && !c.Fetch?)
  {
    SyncSettles(place, deps, local, git);
    QuietWhenSettled(place, deps, Sync(place, deps, local, git).local, git);
  }

  /**
   * Well-formed import paths none of which is a segment prefix of another
   * give the eligible entries separate destinations.
   */
  lemma PlacementSeparate(wd: string, deps: seq<Dependency>)
    requires forall i | 0 <= i < |deps| && Eligible(deps[i]) :: WellFormedImportPath(deps[i].importPath)
    requires forall i, j | 0 <= i < |deps| && 0 <= j < |deps| && i != j && Eligible(deps[i]) && Eligible(deps[j]) ::
      !SegmentPrefix(deps[i].importPath, deps[j].importPath)
    ensures SeparateDestinations(Placement(wd), deps)
  {
    forall i, j | 0 <= i < |deps| && 0 <= j < |deps| && i != j && Eligible(deps[i]) && Eligible(deps[j])
      ensures !(Placement(wd)(deps[i].importPath) <= Placement(wd)(deps[j].importPath))
    {
      DestinationNesting(wd, deps[i].importPath, deps[j].importPath);
    }
  }

  /**
   * With well-formed import paths under the working directory, none a
   * segment prefix of another, a second run after a successful one is quiet.
   */
  lemma RunIdempotent(wd: string, deps: seq<Dependency>, local: Local, git: Git)
    requires forall i | 0 <= i < |deps| && Eligible(deps[i]) :: WellFormedImportPath(deps[i].importPath)
    requires forall i, j | 0 <= i < |deps| && 0 <= j < |deps| && i != j && Eligible(deps[i]) && Eligible(deps[j]) ::
      !SegmentPrefix(deps[i].importPath, deps[j].importPath)
    requires Sync(Placement(wd), deps, local, git).outcome == Ok
    ensures var first := Sync(Placement(wd), deps, local, git);
      var second := Sync(Placement(wd), deps, first.local, git);
      && second.outcome == Ok && second.local == first.local
      && (forall c | c in second.trace :: !c.Clone? && !c.Fetch?)
  {
    PlacementSeparate(wd, deps);
    Idempotent(Placement(wd), deps, local, git);
  }
}
