/**
 * The world the synchroniser acts on, seen only through the commands it
 * issues: the directories below the working directory, the git working
 * copies among them, and an oracle saying which commands fail and what the
 * successful ones leave behind.
 */
module Workspace {
  import opened Paths

  datatype Option<T> = None | Some(value: T)

  /** One process the synchroniser starts, or the directory creation it asks for. */
  datatype Cmd =
    | MkdirAll(dir: Path)                      // os.MkdirAll(dir, 0o755)
    | Clone(repository: string, dest: Path)    // git clone <repository> <dest>
    | RevParseHead(dir: Path)                  // git rev-parse HEAD, run in dir
    | RevVerify(dir: Path, revision: string)   // git rev-parse --verify <revision>^{commit}, run in dir
    | Fetch(dir: Path)                         // git fetch --all --tags --prune, run in dir
    | Checkout(dir: Path, revision: string)    // git checkout -qf <revision>, run in dir

  /** Commands that change the world; the two rev-parse queries only read it. */
  predicate Mutates(c: Cmd) {
    !c.RevParseHead? && !c.RevVerify?
  }

  /** The path a command acts on. */
  function Target(c: Cmd): Path {
    match c
    case MkdirAll(dir) => dir
    case Clone(_, dest) => dest
    case RevParseHead(dir) => dir
    case RevVerify(dir, _) => dir
    case Fetch(dir) => dir
    case Checkout(dir, _) => dir
  }

  /**
   * What exists at a path. A path missing from the map exists only when it
   * is above one that is in it (see Implied) or inside the tree of a working
   * copy (see InClonedTree).
   * `head` is the output of `git rev-parse HEAD` there (None when it fails);
   * `resolvable` holds the revisions `git rev-parse --verify` resolves there;
   * `tree` holds the directories the working copy contains, relative to it.
   * `Unreadable` is a path os.Stat reports an error other than "not exist" for.
   */
  datatype Entry =
    | Directory
    | WorkingCopy(head: Option<string>, resolvable: set<string>, tree: set<Path>)
    | Unreadable

  type Local = map<Path, Entry>

  /**
   * The oracle standing for the network, the remote repositories and git itself.
   * `fails` names the world-changing commands that fail. A successful clone of a
   * repository brings its `published` revisions and the directories of its
   * `tree`, and leaves HEAD printing `cloneHead`; a successful fetch makes
   * `fetched(dir)` resolvable; a successful checkout of a revision leaves HEAD
   * printing `checkedOut(dir, revision)`.
   */
  datatype Git = Git(
    fails: set<Cmd>,
    published: string -> set<string>,
    tree: string -> set<Path>,
    cloneHead: string -> string,
    fetched: Path -> set<string>,
    checkedOut: (Path, string) -> string)

  datatype StatResult = Exists | NotExist | StatError

  /**
   * Every directory above something that exists exists too, so the map only
   * needs to hold the paths commands named; the ones above them are implied.
   */
  predicate Implied(local: Local, p: Path) {
    exists q :: q in local && |p| < |q| && q[..|p|] == p
  }

  predicate IsWorkingCopy(local: Local, dir: Path) {
    dir in local && local[dir].WorkingCopy?
  }

  /** A path inside a working copy whose tree holds it. */
  predicate InClonedTree(local: Local, p: Path) {
    exists q | q in local && |q| < |p| && p[..|q|] == q :: local[q].WorkingCopy? && p[|q|..] in local[q].tree
  }

  /**
   * os.Stat, with errors.Is(err, os.ErrNotExist) told apart from other errors:
   * only an unreadable entry gives an error, and a path the map names, a path
   * inside a working copy's tree and every working copy exist.
   */
  function Stat(local: Local, p: Path): (r: StatResult)
    ensures r == StatError <==> p in local && local[p].Unreadable?
    ensures r == NotExist ==> p !in local && !InClonedTree(local, p)
    ensures IsWorkingCopy(local, p) ==> r == Exists
  {
    if p !in local then (if Implied(local, p) || InClonedTree(local, p) then Exists else NotExist)
    else if local[p].Unreadable? then StatError
    else Exists
  }


  /** Every directory above one the map names exists. */
  lemma StatAbove(local: Local, p: Path, q: Path)
    requires q in local && p < q
    ensures Stat(local, p) == Exists || (p in local && local[p].Unreadable?)
  {
    assert q[..|p|] == p;
  }

  /**
   * Whether a world-changing command fails: the oracle says so, or it is a
   * fetch or checkout in a directory that is not a working copy, where git
   * finds no repository.
   */
  predicate Fails(c: Cmd, local: Local, git: Git) {
    c in git.fails || ((c.Fetch? || c.Checkout?) && !IsWorkingCopy(local, Target(c)))
  }

  /** The output of `git rev-parse HEAD` in `dir`; it fails outside a working copy. */
  function HeadOutput(local: Local, dir: Path): Option<string> {
    if dir in local && local[dir].WorkingCopy? then local[dir].head else None
  }

  /** The revisions `git rev-parse --verify` resolves in `dir`; none outside a working copy. */
  function Resolvable(local: Local, dir: Path): set<string> {
    if dir in local && local[dir].WorkingCopy? then local[dir].resolvable else {}
  }

  /** The directories the working copy at `dir` holds; none outside a working copy. */
  function TreeOf(local: Local, dir: Path): set<Path> {
    if dir in local && local[dir].WorkingCopy? then local[dir].tree else {}
  }

  /**
   * What a successful command leaves behind. Fetch and checkout only succeed
   * in a working copy (see Fails), and keep its tree.
   */
  function Apply(c: Cmd, local: Local, git: Git): (after: Local)
    ensures local.Keys <= after.Keys <= local.Keys + {Target(c)}
    ensures c.MkdirAll? ==> c.dir in after
    ensures forall p | p in local && (c.MkdirAll? || p != Target(c)) :: after[p] == local[p]
    ensures !Mutates(c) ==> after == local
    ensures c.Clone? ==> TreeOf(after, c.dest) == git.tree(c.repository)
    ensures c.Fetch? || c.Checkout? ==> TreeOf(after, Target(c)) == TreeOf(local, Target(c))
  {
    match c
    case MkdirAll(dir) =>
      if dir in local then local else local[dir := Directory]
    case Clone(repository, dest) =>
      local[dest := WorkingCopy(Some(git.cloneHead(repository)), git.published(repository), git.tree(repository))]
    case Fetch(dir) =>
      local[dir := WorkingCopy(HeadOutput(local, dir), Resolvable(local, dir) + git.fetched(dir), TreeOf(local, dir))]
    case Checkout(dir, revision) =>
      local[dir := WorkingCopy(Some(git.checkedOut(dir, revision)), Resolvable(local, dir) + {revision}, TreeOf(local, dir))]
    case RevParseHead(_) => local
    case RevVerify(_, _) => local
  }
}
