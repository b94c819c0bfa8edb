/**
 * What handling one manifest entry does, case by case: which commands it
 * issues, in which order, and what it leaves behind. Every lemma here is
 * about Reconcile, the function SyncEntry is proved to compute.
 */
module EntryFacts {
  import opened Paths
  import opened Text
  import opened Workspace
  import opened SyncVendor

  /**
   * Creating the parent of a destination leaves what stat and git see at the
   * destination itself as it was.
   */
  lemma MkdirParentKeeps(dest: Path, local: Local, git: Git)
    ensures var made := Apply(MkdirAll(Parent(dest)), local, git);
      && (Stat(local, dest) != NotExist ==> Stat(made, dest) == Stat(local, dest))
      && (dest != [] && Stat(local, dest) == NotExist ==> Stat(made, dest) == NotExist)
      && HeadOutput(made, dest) == HeadOutput(local, dest)
      && Resolvable(made, dest) == Resolvable(local, dest)
      && TreeOf(made, dest) == TreeOf(local, dest)
      && IsWorkingCopy(made, dest) == IsWorkingCopy(local, dest)
  {
    var made := Apply(MkdirAll(Parent(dest)), local, git);
    if Implied(local, dest) {
      var q :| q in local && |dest| < |q| && q[..|dest|] == dest;
      assert q in made;
    }
    if InClonedTree(local, dest) {
      var q :| q in local && |q| < |dest| && dest[..|q|] == q && local[q].WorkingCopy? && dest[|q|..] in local[q].tree;
      assert q in made && made[q] == local[q];
    }
    if dest != [] && Stat(local, dest) == NotExist {
      assert !Implied(made, dest);
      assert !InClonedTree(made, dest);
    }
  }

  /** The shape of the checkout that ends an entry: at most the world's entry at `dest` changes. */
  lemma CheckoutStepShape(dest: Path, revision: string, cmds: seq<Cmd>, local: Local, git: Git)
    ensures var s := CheckoutStep(dest, revision, cmds, local, git);
      && s.cmds == cmds
      && local.Keys <= s.local.Keys <= local.Keys + {dest}
      && (forall p | p in local && p != dest :: s.local[p] == local[p])
      && (s.status == Failed(CheckoutRevision) <==> Fails(Checkout(dest, revision), local, git))
      && (s.status.Failed? || s.status == CheckedOut)
      && (s.status == CheckedOut ==>
            s.local[dest] == WorkingCopy(Some(git.checkedOut(dest, revision)), Resolvable(local, dest) + {revision},
                                         TreeOf(local, dest)))
      && (s.status.Failed? ==> s.local == local)
  {
  }

  /** The shape of an entry whose destination was missing. */
  lemma CloneFreshShape(dest: Path, dep: Dependency, mk: Cmd, local: Local, git: Git)
    ensures var s := CloneFresh(dest, dep, mk, local, git);
      && 2 <= |s.cmds| && s.cmds[0] == mk && s.cmds[1] == Clone(dep.repository, dest)
      && (forall c | c in s.cmds :: c == mk || Target(c) == dest)
      && local.Keys <= s.local.Keys <= local.Keys + {dest}
      && (forall p | p in local && p != dest :: s.local[p] == local[p])
      && (s.status.Failed? ==> s.status.stage == CloneRepository || s.status.stage == CheckoutRevision)
      && (s.status.Failed? || s.status == CheckedOut)
      && (s.status == CheckedOut ==>
            && s.cmds[|s.cmds| - 1] == Checkout(dest, dep.revision)
            && Checkout(dest, dep.revision) !in git.fails
            && s.local[dest] == WorkingCopy(Some(git.checkedOut(dest, dep.revision)),
                                            git.published(dep.repository) + {dep.revision},
                                            git.tree(dep.repository)))
  {
    var cl := Clone(dep.repository, dest);
    if cl !in git.fails {
      var cloned := Apply(cl, local, git);
      assert Resolvable(cloned, dest) == git.published(dep.repository);
      assert TreeOf(cloned, dest) == git.tree(dep.repository);
      CheckoutStepShape(dest, dep.revision, [mk, cl, Checkout(dest, dep.revision)], cloned, git);
    }
  }

  /**
   * The shape of an entry whose destination existed: mkdir and rev-parse come
   * first, every other command is about the destination, and the entry ends
   * up to date exactly when HEAD matches, with nothing changed, or else checked
   * out by a checkout that succeeded, or failed at the fetch or the checkout.
   */
  lemma UpdateShape(dest: Path, dep: Dependency, mk: Cmd, local: Local, git: Git)
    ensures var s := Update(dest, dep, mk, local, git);
      && 2 <= |s.cmds| && s.cmds[0] == mk && s.cmds[1] == RevParseHead(dest)
      && (forall c | c in s.cmds :: c == mk || Target(c) == dest)
      && s.status in {UpToDate, CheckedOut, Failed(FetchRefs), Failed(CheckoutRevision)}
      && (s.status == UpToDate <==> MatchesRevision(local, dest, dep.revision))
      && local.Keys <= s.local.Keys <= local.Keys + {dest}
      && (forall p | p in local && p != dest :: s.local[p] == local[p])
      && (s.status == UpToDate ==> s.local == local)
      && (s.status == CheckedOut ==>
            && s.cmds[|s.cmds| - 1] == Checkout(dest, dep.revision) && Checkout(dest, dep.revision) !in git.fails
            && dest in s.local && s.local[dest].WorkingCopy?
            && s.local[dest].head == Some(git.checkedOut(dest, dep.revision))
            && dep.revision in s.local[dest].resolvable)
  {
    var rp := RevParseHead(dest);
    var rv := RevVerify(dest, dep.revision);
    var f := Fetch(dest);
    var co := Checkout(dest, dep.revision);
    var s := Update(dest, dep, mk, local, git);
    if MatchesRevision(local, dest, dep.revision) {
      assert s == Step([mk, rp], local, UpToDate);
    } else if RevExists(local, dest, dep.revision) {
      assert s == CheckoutStep(dest, dep.revision, [mk, rp, rv, co], local, git);
      CheckoutStepShape(dest, dep.revision, [mk, rp, rv, co], local, git);
    } else if Fails(f, local, git) {
      assert s == Step([mk, rp, rv, f], local, Failed(FetchRefs));
    } else {
      var fetched := Apply(f, local, git);
      assert s == CheckoutStep(dest, dep.revision, [mk, rp, rv, f, co], fetched, git);
      CheckoutStepShape(dest, dep.revision, [mk, rp, rv, f, co], fetched, git);
    }
  }

  /** An entry is skipped exactly when it is incomplete or names another VCS; a skipped entry issues nothing. */
  lemma SkipsExactlyIneligible(dest: Path, dep: Dependency, local: Local, git: Git)
    ensures Reconcile(dest, dep, local, git).status.Skipped? <==> !Eligible(dep)
    ensures Reconcile(dest, dep, local, git).cmds == [] <==> !Eligible(dep)
    ensures !Complete(dep) ==> Reconcile(dest, dep, local, git) == Step([], local, Skipped(Incomplete))
    ensures Complete(dep) && !SupportedVcs(dep) ==>
      Reconcile(dest, dep, local, git) == Step([], local, Skipped(UnsupportedVcs))
  {
    ReconcileFrame(dest, dep, local, git);
  }

  /** An empty VCS field is handled exactly like "git". */
  lemma EmptyVcsIsGit(dest: Path, dep: Dependency, local: Local, git: Git)
    ensures Reconcile(dest, dep.(vcs := ""), local, git) == Reconcile(dest, dep.(vcs := "git"), local, git)
  {
    var a, b := dep.(vcs := ""), dep.(vcs := "git");
    assert Eligible(a) == Eligible(b);
    assert a.importPath == b.importPath && a.repository == b.repository && a.revision == b.revision;
  }

  /**
   * An entry that is not skipped starts by creating the parent of its
   * destination; when that fails the entry fails with nothing else issued
   * and nothing changed.
   */
  lemma ParentFirst(dest: Path, dep: Dependency, local: Local, git: Git)
    requires Eligible(dep)
    ensures |Reconcile(dest, dep, local, git).cmds| > 0 && Reconcile(dest, dep, local, git).cmds[0] == MkdirAll(Parent(dest))
    ensures Reconcile(dest, dep, local, git).status == Failed(CreateParent) <==> MkdirAll(Parent(dest)) in git.fails
    ensures MkdirAll(Parent(dest)) in git.fails ==>
      Reconcile(dest, dep, local, git) == Step([MkdirAll(Parent(dest))], local, Failed(CreateParent))
  {
    ReconcileFrame(dest, dep, local, git);
  }

  /**
   * A missing destination is cloned and then checked out: the commands are
   * mkdir, clone and checkout, or stop after the clone when it fails; there
   * is no rev-parse and no fetch.
   */
  lemma ClonesWhenAbsent(dest: Path, dep: Dependency, local: Local, git: Git)
    requires Eligible(dep) && dest != [] && Stat(local, dest) == NotExist
    requires MkdirAll(Parent(dest)) !in git.fails
    ensures var s := Reconcile(dest, dep, local, git);
      var cl := Clone(dep.repository, dest);
      var co := Checkout(dest, dep.revision);
      && s.cmds == (if cl in git.fails then [MkdirAll(Parent(dest)), cl] else [MkdirAll(Parent(dest)), cl, co])
      && s.status == (if cl in git.fails then Failed(CloneRepository)
                      else if co in git.fails then Failed(CheckoutRevision)
                      else CheckedOut)
      && (s.status == CheckedOut ==>
            && dest in s.local
            && s.local[dest] == WorkingCopy(Some(git.checkedOut(dest, dep.revision)),
                                            git.published(dep.repository) + {dep.revision},
                                            git.tree(dep.repository)))
  {
    var mk := MkdirAll(Parent(dest));
    var made := Apply(mk, local, git);
    MkdirParentKeeps(dest, local, git);
    CloneFreshShape(dest, dep, mk, made, git);
  }

  /**
   * An existing working copy whose HEAD, trimmed, is the revision is left
   * alone after rev-parse: no fetch and no checkout. Conversely an existing
   * destination counts as up to date only when its HEAD matches.
   */
  lemma UpToDateIffMatches(dest: Path, dep: Dependency, local: Local, git: Git)
    requires Eligible(dep) && Stat(local, dest) == Exists
    requires MkdirAll(Parent(dest)) !in git.fails
    ensures Reconcile(dest, dep, local, git).status == UpToDate <==> MatchesRevision(local, dest, dep.revision)
    ensures MatchesRevision(local, dest, dep.revision) ==>
      Reconcile(dest, dep, local, git) ==
        Step([MkdirAll(Parent(dest)), RevParseHead(dest)], Apply(MkdirAll(Parent(dest)), local, git), UpToDate)
  {
    MkdirParentKeeps(dest, local, git);
  }

  /** A stale working copy that already resolves the revision is checked out without a fetch. */
  lemma NoFetchWhenKnown(dest: Path, dep: Dependency, local: Local, git: Git)
    requires Eligible(dep) && Stat(local, dest) == Exists
    requires MkdirAll(Parent(dest)) !in git.fails
    requires !MatchesRevision(local, dest, dep.revision) && RevExists(local, dest, dep.revision)
    ensures var s := Reconcile(dest, dep, local, git);
      && s.cmds == [MkdirAll(Parent(dest)), RevParseHead(dest), RevVerify(dest, dep.revision), Checkout(dest, dep.revision)]
      && s.status == (if Checkout(dest, dep.revision) in git.fails then Failed(CheckoutRevision) else CheckedOut)
  {
    MkdirParentKeeps(dest, local, git);
  }

  /**
   * A stale working copy that does not resolve the revision is fetched
   * exactly once before the checkout; a failed fetch ends the entry.
   */
  lemma FetchOnceWhenUnknown(dest: Path, dep: Dependency, local: Local, git: Git)
    requires Eligible(dep) && Stat(local, dest) == Exists
    requires MkdirAll(Parent(dest)) !in git.fails
    requires !MatchesRevision(local, dest, dep.revision) && !RevExists(local, dest, dep.revision)
    ensures var s := Reconcile(dest, dep, local, git);
      var f := Fetch(dest);
      var co := Checkout(dest, dep.revision);
      var mk, rp, rv := MkdirAll(Parent(dest)), RevParseHead(dest), RevVerify(dest, dep.revision);
      && s.cmds == (if Fails(f, local, git) then [mk, rp, rv, f] else [mk, rp, rv, f, co])
      && s.status == (if Fails(f, local, git) then Failed(FetchRefs)
                      else if co in git.fails then Failed(CheckoutRevision)
                      else CheckedOut)
      && (s.status == CheckedOut ==>
            && dest in s.local
            && s.local[dest] == WorkingCopy(Some(git.checkedOut(dest, dep.revision)),
                                            Resolvable(local, dest) + git.fetched(dest) + {dep.revision},
                                            TreeOf(local, dest)))
  {
    var mk := MkdirAll(Parent(dest));
    var made := Apply(mk, local, git);
    MkdirParentKeeps(dest, local, git);
    assert Reconcile(dest, dep, local, git) == Update(dest, dep, mk, made, git);
    var rp, rv, f, co := RevParseHead(dest), RevVerify(dest, dep.revision), Fetch(dest), Checkout(dest, dep.revision);
    assert !MatchesRevision(made, dest, dep.revision) && !RevExists(made, dest, dep.revision);
    if Fails(f, made, git) {
      assert Update(dest, dep, mk, made, git) == Step([mk, rp, rv, f], made, Failed(FetchRefs));
    } else {
      var fetched := Apply(f, made, git);
      assert Update(dest, dep, mk, made, git) == CheckoutStep(dest, dep.revision, [mk, rp, rv, f, co], fetched, git);
      assert Resolvable(fetched, dest) == Resolvable(local, dest) + git.fetched(dest);
      assert TreeOf(fetched, dest) == TreeOf(local, dest);
    }
  }

  /** A stat error other than "not exist" ends the entry right after mkdir. */
  lemma StatErrorAborts(dest: Path, dep: Dependency, local: Local, git: Git)
    requires Eligible(dep) && Stat(local, dest) == StatError
    requires MkdirAll(Parent(dest)) !in git.fails
    ensures Reconcile(dest, dep, local, git) ==
      Step([MkdirAll(Parent(dest))], Apply(MkdirAll(Parent(dest)), local, git), Failed(StatDestination))
  {
    MkdirParentKeeps(dest, local, git);
  }

  /**
   * An existing destination that is not a working copy (a plain directory,
   * or a directory inside another entry's clone) has no HEAD and resolves
   * nothing, and git finds no repository there to fetch into: the entry
   * fails at the fetch.
   */
  lemma PlainDirectoryFailsAtFetch(dest: Path, dep: Dependency, local: Local, git: Git)
    requires Eligible(dep) && Stat(local, dest) == Exists && !IsWorkingCopy(local, dest)
    requires MkdirAll(Parent(dest)) !in git.fails
    ensures Reconcile(dest, dep, local, git) ==
      Step([MkdirAll(Parent(dest)), RevParseHead(dest), RevVerify(dest, dep.revision), Fetch(dest)],
           Apply(MkdirAll(Parent(dest)), local, git), Failed(FetchRefs))
  {
    MkdirParentKeeps(dest, local, git);
  }

  /**
   * A destination inside the tree of an earlier clone exists: it is not
   * cloned again, and since it is no working copy of its own the entry fails
   * at the fetch.
   */
  lemma InsideCloneIsNotCloned(wc: Path, rel: Path, dep: Dependency, local: Local, git: Git)
    requires Eligible(dep)
    requires wc in local && local[wc].WorkingCopy? && rel != [] && rel in local[wc].tree && wc + rel !in local
    requires MkdirAll(Parent(wc + rel)) !in git.fails
    ensures var dest := wc + rel;
      Reconcile(dest, dep, local, git) ==
        Step([MkdirAll(Parent(dest)), RevParseHead(dest), RevVerify(dest, dep.revision), Fetch(dest)],
             Apply(MkdirAll(Parent(dest)), local, git), Failed(FetchRefs))
  {
    var dest := wc + rel;
    assert dest[..|wc|] == wc && dest[|wc|..] == rel;
    assert InClonedTree(local, dest);
    PlainDirectoryFailsAtFetch(dest, dep, local, git);
  }

  /** An eligible entry whose mkdir succeeded goes one of three ways, by what stat reports. */
  lemma ReconcileBranches(dest: Path, dep: Dependency, local: Local, git: Git)
    requires Eligible(dep) && MkdirAll(Parent(dest)) !in git.fails
    ensures var mk := MkdirAll(Parent(dest));
      var made := Apply(mk, local, git);
      var s := Reconcile(dest, dep, local, git);
      && made.Keys <= local.Keys + {Parent(dest)}
      && (Stat(made, dest) == NotExist ==> s == CloneFresh(dest, dep, mk, made, git))
      && (Stat(made, dest) == StatError ==> s == Step([mk], made, Failed(StatDestination)))
      && (Stat(made, dest) == Exists ==> s == Update(dest, dep, mk, made, git))
  {
  }

  /**
   * Whatever path it takes, an entry touches only its destination and the
   * missing directories above it, and every command it issues is about one
   * of those two. An entry that is not skipped starts with mkdir and fails at
   * that stage exactly when mkdir fails.
   */
  lemma ReconcileFrame(dest: Path, dep: Dependency, local: Local, git: Git)
    ensures var s := Reconcile(dest, dep, local, git);
      var mk := MkdirAll(Parent(dest));
      && local.Keys <= s.local.Keys <= local.Keys + {Parent(dest), dest}
      && (forall p | p in local && p != dest :: s.local[p] == local[p])
      && (forall c | c in s.cmds :: c == mk || Target(c) == dest)
      && (Eligible(dep) ==>
            && s.cmds != [] && s.cmds[0] == mk && !s.status.Skipped?
            && (s.status == Failed(CreateParent) <==> mk in git.fails))
  {
    var mk := MkdirAll(Parent(dest));
    if Eligible(dep) && mk !in git.fails {
      var made := Apply(mk, local, git);
      ReconcileBranches(dest, dep, local, git);
      CloneFreshShape(dest, dep, mk, made, git);
      UpdateShape(dest, dep, mk, made, git);
    }
  }

  /**
   * An entry that ends checked out ends with a checkout that succeeded, and
   * leaves a working copy whose HEAD is the checkout's and in which the
   * revision resolves.
   */
  lemma CheckedOutLast(dest: Path, dep: Dependency, local: Local, git: Git)
    requires Reconcile(dest, dep, local, git).status == CheckedOut
    ensures var s := Reconcile(dest, dep, local, git);
      && s.cmds != [] && s.cmds[|s.cmds| - 1] == Checkout(dest, dep.revision)
      && Checkout(dest, dep.revision) !in git.fails
      && dest in s.local && s.local[dest].WorkingCopy?
      && s.local[dest].head == Some(git.checkedOut(dest, dep.revision))
      && dep.revision in s.local[dest].resolvable
  {
    var mk := MkdirAll(Parent(dest));
    var made := Apply(mk, local, git);
    assert Eligible(dep) && mk !in git.fails;
    ReconcileBranches(dest, dep, local, git);
    if Stat(made, dest) == NotExist {
      CloneFreshShape(dest, dep, mk, made, git);
    } else {
      UpdateShape(dest, dep, mk, made, git);
    }
  }

  /**
   * An entry whose destination is already where a successful run leaves it:
   * its parent exists, it is a working copy, and either its HEAD matches or
   * the revision resolves there and checking it out again changes nothing.
   */
  predicate Settled(dest: Path, dep: Dependency, local: Local, git: Git) {
    && MkdirAll(Parent(dest)) !in git.fails
    && Parent(dest) in local
    && dest in local && local[dest].WorkingCopy?
    && (|| MatchesRevision(local, dest, dep.revision)
        || (&& dep.revision in local[dest].resolvable
            && local[dest].head == Some(git.checkedOut(dest, dep.revision))
            && Checkout(dest, dep.revision) !in git.fails))
  }

  /** An entry that did not fail leaves its destination settled. */
  lemma SucceededSettles(dest: Path, dep: Dependency, local: Local, git: Git)
    requires Eligible(dep)
    requires !Reconcile(dest, dep, local, git).status.Failed?
    ensures Settled(dest, dep, Reconcile(dest, dep, local, git).local, git)
  {
    var mk := MkdirAll(Parent(dest));
    var made := Apply(mk, local, git);
    var s := Reconcile(dest, dep, local, git);
    if s.status == CheckedOut {
      CheckedOutLast(dest, dep, local, git);
    }
    assert mk !in git.fails;
    if Stat(made, dest) == NotExist {
      assert s == CloneFresh(dest, dep, mk, made, git);
      CloneFreshShape(dest, dep, mk, made, git);
    } else {
      assert Stat(made, dest) == Exists;
      assert s == Update(dest, dep, mk, made, git);
      UpdateShape(dest, dep, mk, made, git);
    }
  }

  /**
   * A settled entry issues no clone and no fetch, does not fail, and leaves
   * the world exactly as it found it.
   */
  lemma SettledIsQuiet(dest: Path, dep: Dependency, local: Local, git: Git)
    requires Eligible(dep) && Settled(dest, dep, local, git)
    ensures var s := Reconcile(dest, dep, local, git);
      && s.local == local
      && (s.status == UpToDate || s.status == CheckedOut)
      && (forall c | c in s.cmds :: !c.Clone? && !c.Fetch?)
  {
    var mk := MkdirAll(Parent(dest));
    assert Apply(mk, local, git) == local;
    assert Stat(local, dest) == Exists;
    assert Reconcile(dest, dep, local, git) == Update(dest, dep, mk, local, git);
    SettledUpdateIsQuiet(dest, dep, mk, local, git);
  }

  lemma SettledUpdateIsQuiet(dest: Path, dep: Dependency, mk: Cmd, local: Local, git: Git)
    requires !mk.Clone? && !mk.Fetch? && Settled(dest, dep, local, git)
    ensures var s := Update(dest, dep, mk, local, git);
      && s.local == local
      && (s.status == UpToDate || s.status == CheckedOut)
      && (forall c | c in s.cmds :: !c.Clone? && !c.Fetch?)
  {
    if !MatchesRevision(local, dest, dep.revision) {
      var cmds := [mk, RevParseHead(dest), RevVerify(dest, dep.revision), Checkout(dest, dep.revision)];
      assert Update(dest, dep, mk, local, git) == CheckoutStep(dest, dep.revision, cmds, local, git);
      RepeatedCheckoutIsQuiet(dest, dep.revision, cmds, local, git);
    }
  }

  /** Checking out again the revision a working copy was checked out at changes nothing. */
  lemma RepeatedCheckoutIsQuiet(dest: Path, revision: string, cmds: seq<Cmd>, local: Local, git: Git)
    requires dest in local && local[dest].WorkingCopy? && revision in local[dest].resolvable
    requires local[dest].head == Some(git.checkedOut(dest, revision)) && Checkout(dest, revision) !in git.fails
    ensures CheckoutStep(dest, revision, cmds, local, git) == Step(cmds, local, CheckedOut)
  {
    assert local[dest] == WorkingCopy(Some(git.checkedOut(dest, revision)), Resolvable(local, dest) + {revision},
                                      TreeOf(local, dest));
  }

  /**
   * A match needs a working copy, a revision without white space at its ends,
   * and HEAD output that is that revision with only white space around it.
   */
  lemma MatchedHeadIsPadded(local: Local, dir: Path, revision: string)
    requires MatchesRevision(local, dir, revision)
    ensures IsWorkingCopy(local, dir) && Trimmed(revision)
    ensures var out := HeadOutput(local, dir).value;
      var n := LeadingSpace(out);
      && n + |revision| <= |out| && AllSpace(out[..n])
      && out[n..n + |revision|] == revision && AllSpace(out[n + |revision|..])
  {
    var out := HeadOutput(local, dir).value;
    assert TrimSpace(out) == revision;
  }

  /** A revision resolves only in a working copy, and there exactly when the working copy knows it. */
  lemma RevExistsInWorkingCopy(local: Local, dir: Path, revision: string)
    ensures RevExists(local, dir, revision) <==> IsWorkingCopy(local, dir) && revision in local[dir].resolvable
  {
  }

  /** A rev-parse that fails never matches, whatever the revision. */
  lemma NoHeadNoMatch(local: Local, dir: Path, revision: string)
    requires HeadOutput(local, dir) == None
    ensures !MatchesRevision(local, dir, revision)
  {
  }

  /**
   * rev-parse prints the commit followed by a newline; its output matches
   * exactly the revision it prints, surrounding white space aside.
   */
  lemma PrintedHeadMatches(local: Local, dir: Path, pre: string, revision: string, post: string)
    requires AllSpace(pre) && AllSpace(post) && Trimmed(revision)
    requires HeadOutput(local, dir) == Some(pre + revision + post)
    ensures MatchesRevision(local, dir, revision)
  {
    TrimPadded(pre, revision, post);
  }
}
