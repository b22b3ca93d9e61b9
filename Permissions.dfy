/**
 * `applyPerms` (gpack.py): a top-down `os.walk` of one mirror that prunes
 * anything named `.git`, collected as `(root, files)` pairs, then replayed
 * in reverse, clearing (lock) or setting (unlock) the owner-write bit on
 * every file and then on its directory.
 *
 * Paths are lists of names below the mirror's root directory (the root is
 * `[]`); the disk is a map from path to `st_mode` plus the set of paths
 * whose chmod raises `PermissionError`.
 */
module Permissions {

  type Mode = bv32

  /** `stat.S_IWUSR`, 0o200: write permission for the owner. */
  const S_IWUSR: Mode := 0x80
  /** 0o7777: the bits chmod(2) sets; the file-type bits above them are kept. */
  const PERMISSION_BITS: Mode := 0xFFF
  /** `exclude = [".git"]`. */
  const EXCLUDED: string := ".git"

  datatype Action = Lock | Unlock

  /** The mode `applyPerms` hands to `os.chmod`: `st_mode & ~S_IWUSR` or `st_mode | S_IWUSR`. */
  function Requested(mode: Mode, action: Action): Mode {
    match action
    case Lock => mode & !S_IWUSR
    case Unlock => mode | S_IWUSR
  }

  /** `st_mode` after chmod(2): the type bits stay, the permission bits become the requested ones. */
  function AfterChmod(mode: Mode, requested: Mode): Mode {
    (mode & !PERMISSION_BITS) | (requested & PERMISSION_BITS)
  }

  /** The mode an entry ends with once `applyPerms` has changed it. */
  function Applied(mode: Mode, action: Action): Mode {
    AfterChmod(mode, Requested(mode, action))
  }

  lemma LockClearsOwnerWrite(mode: Mode)
    ensures Applied(mode, Lock) == mode & !S_IWUSR
    ensures Applied(mode, Lock) & S_IWUSR == 0
  {
  }

  lemma UnlockSetsOwnerWrite(mode: Mode)
    ensures Applied(mode, Unlock) == mode | S_IWUSR
    ensures Applied(mode, Unlock) & S_IWUSR == S_IWUSR
  {
  }

  /** Every bit other than owner-write is left as it was. */
  lemma OtherBitsKept(mode: Mode, action: Action)
    ensures Applied(mode, action) & !S_IWUSR == mode & !S_IWUSR
  {
  }

  lemma AppliedIdempotent(mode: Mode, action: Action)
    ensures Applied(Applied(mode, action), action) == Applied(mode, action)
  {
    var once := Applied(mode, action);
    match action
    case Lock =>
      LockClearsOwnerWrite(mode);
      LockClearsOwnerWrite(once);
      assert once & !S_IWUSR == mode & !S_IWUSR & !S_IWUSR == once;
    case Unlock =>
      UnlockSetsOwnerWrite(mode);
      UnlockSetsOwnerWrite(once);
      assert once | S_IWUSR == mode | S_IWUSR | S_IWUSR == once;
  }

  // ---------------------------------------------------------------------
  // The directory tree and the top-down walk

  /** What `os.walk` reports for one directory: its file names and its subdirectories, in listing order. */
  datatype Tree = Dir(name: string, files: seq<string>, dirs: seq<Tree>)

  /** Names below the mirror root; `[]` is the root itself. */
  type Path = seq<string>

  /** One `(root, files)` pair of `repo_walk`. */
  datatype Entry = Entry(dir: Path, files: seq<string>)

  /** `[f for f in files if f not in exclude]`. */
  function Keep(names: seq<string>): (r: seq<string>)
    ensures EXCLUDED !in r
    ensures forall n :: n in r <==> n in names && n != EXCLUDED
  {
    if names == [] then []
    else (if names[0] == EXCLUDED then [] else [names[0]]) + Keep(names[1..])
  }

  /** `[d for d in dirs if d not in exclude]`. */
  function Prune(ds: seq<Tree>): (r: seq<Tree>)
    ensures forall d :: d in r <==> d in ds && d.name != EXCLUDED
  {
    if ds == [] then []
    else (if ds[0].name == EXCLUDED then [] else [ds[0]]) + Prune(ds[1..])
  }

  /**
   * The pairs a top-down walk of `t` (found at `at`) yields: the directory
   * itself, then each subdirectory not named `.git`, in listing order.
   */
  function Pre(t: Tree, at: Path): seq<Entry>
    decreases t
  {
    [Entry(at, Keep(t.files))] + PreList(t.dirs, at)
  }

  function PreList(ds: seq<Tree>, at: Path): seq<Entry>
    decreases ds
  {
    if ds == [] then []
    else
      (if ds[0].name == EXCLUDED then [] else Pre(ds[0], at + [ds[0].name]))
      + PreList(ds[1..], at)
  }

  /** A directory `os.walk` has still to visit, and where it is. */
  datatype Visit = Visit(tree: Tree, at: Path)

  /** Pushing the kept subdirectories so that the first one is visited next (the stack top is its last element). */
  function Schedule(ds: seq<Tree>, at: Path): seq<Visit> {
    if ds == [] then [] else Schedule(ds[1..], at) + [Visit(ds[0], at + [ds[0].name])]
  }

  /** Everything the walk still yields from a stack of pending directories. */
  function PreStack(stack: seq<Visit>): seq<Entry> {
    if stack == [] then []
    else Pre(stack[|stack| - 1].tree, stack[|stack| - 1].at) + PreStack(stack[..|stack| - 1])
  }

  function Size(t: Tree): nat
    decreases t
  {
    1 + SizeList(t.dirs)
  }

  function SizeList(ds: seq<Tree>): nat
    decreases ds
  {
    if ds == [] then 0 else Size(ds[0]) + SizeList(ds[1..])
  }

  function StackSize(stack: seq<Visit>): nat {
    if stack == [] then 0 else StackSize(stack[..|stack| - 1]) + Size(stack[|stack| - 1].tree)
  }

  lemma {:induction false} PreStackAppend(a: seq<Visit>, b: seq<Visit>)
    ensures PreStack(a + b) == PreStack(b) + PreStack(a)
    ensures StackSize(a + b) == StackSize(a) + StackSize(b)
    decreases |b|
  {
    if b == [] {
      assert a + b == a;
    } else {
      var b' := b[..|b| - 1];
      assert (a + b)[..|a + b| - 1] == a + b';
      PreStackAppend(a, b');
    }
  }

  /** Pushing the pruned subdirectories schedules exactly what the walk yields below this directory. */
  lemma {:induction false} SchedulePruned(ds: seq<Tree>, at: Path)
    ensures PreStack(Schedule(Prune(ds), at)) == PreList(ds, at)
    ensures StackSize(Schedule(Prune(ds), at)) <= SizeList(ds)
    decreases ds
  {
    if ds != [] {
      SchedulePruned(ds[1..], at);
      var rest := Prune(ds[1..]);
      if ds[0].name != EXCLUDED {
        var v := Visit(ds[0], at + [ds[0].name]);
        assert Prune(ds) == [ds[0]] + rest;
        assert ([ds[0]] + rest)[1..] == rest;
        assert Schedule(Prune(ds), at) == Schedule(rest, at) + [v];
        PreStackAppend(Schedule(rest, at), [v]);
        assert PreStack([v]) == Pre(ds[0], at + [ds[0].name]) by {
          assert [v][..0] == [];
        }
      } else {
        assert Prune(ds) == rest;
      }
    }
  }

  /** A stack holding one directory yields exactly that directory's walk. */
  lemma PreStackSingle(v: Visit)
    ensures PreStack([v]) == Pre(v.tree, v.at)
    ensures StackSize([v]) == Size(v.tree)
  {
    assert [v][..0] == [];
  }

  /** Popping a directory, yielding its entry and pushing its kept subdirectories leaves the rest of the walk unchanged. */
  lemma WalkStep(rest: seq<Visit>, v: Visit)
    ensures [Entry(v.at, Keep(v.tree.files))] + PreStack(rest + Schedule(Prune(v.tree.dirs), v.at))
         == PreStack(rest + [v])
  {
    var pushed := Schedule(Prune(v.tree.dirs), v.at);
    PreStackAppend(rest, [v]);
    PreStackSingle(v);
    SchedulePruned(v.tree.dirs, v.at);
    PreStackAppend(rest, pushed);
    assert PreStack(rest + [v]) == [Entry(v.at, Keep(v.tree.files))] + PreStack(pushed) + PreStack(rest);
  }

  /** The same step shrinks what is left to visit, so the walk ends. */
  lemma WalkShrinks(rest: seq<Visit>, v: Visit)
    ensures StackSize(rest + Schedule(Prune(v.tree.dirs), v.at)) < StackSize(rest + [v])
  {
    PreStackAppend(rest, [v]);
    PreStackSingle(v);
    SchedulePruned(v.tree.dirs, v.at);
    PreStackAppend(rest, Schedule(Prune(v.tree.dirs), v.at));
  }

  /**
   * The first loop of `applyPerms`: `for root, dirs, files in os.walk(top)`
   * with `dirs` and `files` pruned in place, appending `(root, files)`.
   * The walk is `os.walk`'s own stack of pending directories.
   */
  method Walk(top: Tree) returns (walk: seq<Entry>)
    ensures walk == Pre(top, [])
  {
    walk := [];
    var stack := [Visit(top, [])];
    assert PreStack(stack) == Pre(top, []) by {
      assert stack[..0] == [];
    }
    while stack != []
      invariant walk + PreStack(stack) == Pre(top, [])
      decreases StackSize(stack)
    {
      var v := stack[|stack| - 1];
      var rest := stack[..|stack| - 1];
      assert stack == rest + [v];
      WalkStep(rest, v);
      WalkShrinks(rest, v);
      var dirs := Prune(v.tree.dirs);
      var files := Keep(v.tree.files);
      walk := walk + [Entry(v.at, files)];
      stack := rest + Schedule(dirs, v.at);
    }
  }

  // ---------------------------------------------------------------------
  // The chmod phase

  function Reversed<T>(s: seq<T>): (r: seq<T>)
    ensures |r| == |s|
    ensures forall k :: 0 <= k < |s| ==> r[k] == s[|s| - 1 - k]
  {
    if s == [] then [] else Reversed(s[1..]) + [s[0]]
  }

  /** The files of one entry, in order: a file `os.stat` cannot find, or whose chmod is refused, is skipped. */
  function ChmodFiles(modes: map<Path, Mode>, denied: set<Path>, dir: Path, files: seq<string>, action: Action): map<Path, Mode>
    decreases |files|
  {
    if files == [] then modes
    else
      var p := dir + [files[0]];
      var next := if p in modes && p !in denied then modes[p := Applied(modes[p], action)] else modes;
      ChmodFiles(next, denied, dir, files[1..], action)
  }

  /** The modes after a run of `applyPerms`, and whether it ran to the end. */
  datatype Outcome = Outcome(modes: map<Path, Mode>, finished: bool)

  /**
   * The entries in order: each entry's files, then its directory. The
   * directory's `os.stat` and `os.chmod` are not guarded, so a missing or
   * refused directory raises and ends the whole run.
   */
  function ChmodEntries(modes: map<Path, Mode>, denied: set<Path>, es: seq<Entry>, action: Action): Outcome
    decreases |es|
  {
    if es == [] then Outcome(modes, true)
    else
      var m := ChmodFiles(modes, denied, es[0].dir, es[0].files, action);
      if es[0].dir !in m || es[0].dir in denied then Outcome(m, false)
      else ChmodEntries(m[es[0].dir := Applied(m[es[0].dir], action)], denied, es[1..], action)
  }

  /** What one `applyPerms(repo, action)` does to a mirror laid out as `layout`. */
  function PermsOutcome(modes: map<Path, Mode>, denied: set<Path>, layout: Tree, action: Action): Outcome {
    ChmodEntries(modes, denied, Reversed(Pre(layout, [])), action)
  }

  /** The on-disk working copy of one repository, as `applyPerms` and `lock`/`unlock` see it. */
  class Mirror {
    /** `os.path.isdir(repo.directory)`. */
    var present: bool
    /** What `os.walk` lists below `repo.directory`. */
    var layout: Tree
    /** `st_mode` of every path `os.stat` resolves. */
    var modes: map<Path, Mode>
    /** Paths whose `os.chmod` raises `PermissionError`. */
    var denied: set<Path>

    constructor (present: bool, layout: Tree, modes: map<Path, Mode>, denied: set<Path>)
      ensures this.present == present && this.layout == layout
      ensures this.modes == modes && this.denied == denied
    {
      this.present := present;
      this.layout := layout;
      this.modes := modes;
      this.denied := denied;
    }
  }

  /** One file of the inner loop: what is left to do after it. */
  lemma FileStep(modes: map<Path, Mode>, denied: set<Path>, dir: Path, files: seq<string>, j: nat, action: Action)
    requires j < |files|
    ensures var p := dir + [files[j]];
      var next := if p in modes && p !in denied then modes[p := Applied(modes[p], action)] else modes;
      ChmodFiles(modes, denied, dir, files[j..], action) == ChmodFiles(next, denied, dir, files[j + 1..], action)
  {
    assert files[j..][0] == files[j] && files[j..][1..] == files[j + 1..];
  }

  /** One entry of the outer loop, once its files are done: stop, or chmod the directory and go on. */
  lemma EntryStep(modes: map<Path, Mode>, denied: set<Path>, es: seq<Entry>, i: nat, action: Action)
    requires i < |es|
    ensures var m := ChmodFiles(modes, denied, es[i].dir, es[i].files, action);
      ChmodEntries(modes, denied, es[i..], action)
      == if es[i].dir !in m || es[i].dir in denied then Outcome(m, false)
         else ChmodEntries(m[es[i].dir := Applied(m[es[i].dir], action)], denied, es[i + 1..], action)
  {
    assert es[i..][0] == es[i] && es[i..][1..] == es[i + 1..];
  }

  /**
   * The inner loop of `applyPerms`: chmod each file of one directory,
   * skipping a file `os.stat` cannot find or whose chmod is refused.
   */
  method ChmodDirFiles(mirror: Mirror, dir: Path, files: seq<string>, action: Action)
    modifies mirror`modes
    ensures mirror.modes == ChmodFiles(old(mirror.modes), mirror.denied, dir, files, action)
  {
    var j := 0;
    while j < |files|
      invariant 0 <= j <= |files|
      invariant ChmodFiles(mirror.modes, mirror.denied, dir, files[j..], action)
             == ChmodFiles(old(mirror.modes), mirror.denied, dir, files, action)
    {
      var p := dir + [files[j]];
      FileStep(mirror.modes, mirror.denied, dir, files, j, action);
      if p in mirror.modes && p !in mirror.denied {
        mirror.modes := mirror.modes[p := Applied(mirror.modes[p], action)];
      }
      j := j + 1;
    }
    assert files[j..] == [];
  }

  /**
   * `applyPerms(repo, action)`. Returns false when a directory's `os.stat`
   * or `os.chmod` raised, which ends the run (and the caller) early.
   */
  method ApplyPerms(mirror: Mirror, action: Action) returns (finished: bool)
    modifies mirror`modes
    ensures var out := PermsOutcome(old(mirror.modes), mirror.denied, mirror.layout, action);
      mirror.modes == out.modes && finished == out.finished
  {
    var walk := Walk(mirror.layout);
    var order := Reversed(walk);
    var denied := mirror.denied;
    ghost var goal := ChmodEntries(mirror.modes, denied, order, action);
    var i := 0;
    while i < |order|
      invariant 0 <= i <= |order|
      invariant ChmodEntries(mirror.modes, denied, order[i..], action) == goal
    {
      var e := order[i];
      EntryStep(mirror.modes, denied, order, i, action);
      ChmodDirFiles(mirror, e.dir, e.files, action);
      if e.dir !in mirror.modes || e.dir in denied {
        return false;
      }
      mirror.modes := mirror.modes[e.dir := Applied(mirror.modes[e.dir], action)];
      i := i + 1;
    }
    assert order[i..] == [];
    return true;
  }

  // ---------------------------------------------------------------------
  // What a run changes, path by path

  /** The files of one entry that get changed: `os.stat` finds them and `os.chmod` is allowed. */
  function FilesReached(keys: set<Path>, denied: set<Path>, dir: Path, files: seq<string>): set<Path> {
    set f | f in files && dir + [f] in keys && dir + [f] !in denied :: dir + [f]
  }

  /** The paths a run changes, and whether it runs to the end. */
  datatype Reach = Reach(paths: set<Path>, finished: bool)

  function Reached(keys: set<Path>, denied: set<Path>, es: seq<Entry>): Reach
    decreases |es|
  {
    if es == [] then Reach({}, true)
    else
      var fs := FilesReached(keys, denied, es[0].dir, es[0].files);
      if es[0].dir !in keys || es[0].dir in denied then Reach(fs, false)
      else var r := Reached(keys, denied, es[1..]); Reach(fs + {es[0].dir} + r.paths, r.finished)
  }

  /** Each path of `touched` gets the action applied once; every other path keeps its mode. */
  function Touch(modes: map<Path, Mode>, touched: set<Path>, action: Action): (r: map<Path, Mode>)
    ensures r.Keys == modes.Keys
  {
    map p | p in modes :: if p in touched then Applied(modes[p], action) else modes[p]
  }

  lemma TouchTwice(modes: map<Path, Mode>, a: set<Path>, b: set<Path>, action: Action)
    ensures Touch(Touch(modes, a, action), b, action) == Touch(modes, a + b, action)
  {
    forall p | p in modes && p in a && p in b {
      AppliedIdempotent(modes[p], action);
    }
  }

  lemma {:induction false} ChmodFilesPointwise(modes: map<Path, Mode>, denied: set<Path>, dir: Path, files: seq<string>, action: Action)
    ensures ChmodFiles(modes, denied, dir, files, action) == Touch(modes, FilesReached(modes.Keys, denied, dir, files), action)
    decreases |files|
  {
    if files == [] {
      assert FilesReached(modes.Keys, denied, dir, files) == {};
      assert Touch(modes, {}, action) == modes;
    } else {
      var p := dir + [files[0]];
      var hit: set<Path> := if p in modes && p !in denied then {p} else {};
      var next := if p in modes && p !in denied then modes[p := Applied(modes[p], action)] else modes;
      assert next == Touch(modes, hit, action);
      ChmodFilesPointwise(next, denied, dir, files[1..], action);
      TouchTwice(modes, hit, FilesReached(modes.Keys, denied, dir, files[1..]), action);
      assert hit + FilesReached(modes.Keys, denied, dir, files[1..]) == FilesReached(modes.Keys, denied, dir, files) by {
        assert forall f :: f in files <==> f == files[0] || f in files[1..];
      }
    }
  }

  /**
   * A run of `applyPerms`, path by path: the modes keep their keys, each
   * reached path has the action applied, every other path is unchanged.
   */
  lemma {:induction false} ChmodEntriesPointwise(modes: map<Path, Mode>, denied: set<Path>, es: seq<Entry>, action: Action)
    ensures var r := Reached(modes.Keys, denied, es);
      ChmodEntries(modes, denied, es, action) == Outcome(Touch(modes, r.paths, action), r.finished)
    decreases |es|
  {
    if es == [] {
      assert Touch(modes, {}, action) == modes;
    } else {
      var fs := FilesReached(modes.Keys, denied, es[0].dir, es[0].files);
      ChmodFilesPointwise(modes, denied, es[0].dir, es[0].files, action);
      var m := Touch(modes, fs, action);
      if !(es[0].dir !in m || es[0].dir in denied) {
        var m' := m[es[0].dir := Applied(m[es[0].dir], action)];
        assert m' == Touch(m, {es[0].dir}, action);
        TouchTwice(modes, fs, {es[0].dir}, action);
        ChmodEntriesPointwise(m', denied, es[1..], action);
        TouchTwice(modes, fs + {es[0].dir}, Reached(modes.Keys, denied, es[1..]).paths, action);
      }
    }
  }

  /**
   * Whether a pass runs to the end depends only on which paths exist and
   * which refuse chmod, never on the action or on the modes themselves:
   * `lock` and `unlock` on one mirror either both finish or both raise.
   */
  lemma FinishedIgnoresAction(modes: map<Path, Mode>, other: map<Path, Mode>, denied: set<Path>, layout: Tree, a: Action, b: Action)
    requires other.Keys == modes.Keys
    ensures PermsOutcome(modes, denied, layout, a).finished == PermsOutcome(other, denied, layout, b).finished
  {
    ChmodEntriesPointwise(modes, denied, Reversed(Pre(layout, [])), a);
    ChmodEntriesPointwise(other, denied, Reversed(Pre(layout, [])), b);
  }

  /** Locking (or unlocking) a second time changes nothing: same modes, same outcome. */
  lemma ApplyPermsIdempotent(modes: map<Path, Mode>, denied: set<Path>, layout: Tree, action: Action)
    ensures var once := PermsOutcome(modes, denied, layout, action);
      PermsOutcome(once.modes, denied, layout, action) == once
  {
    var es := Reversed(Pre(layout, []));
    var r := Reached(modes.Keys, denied, es);
    ChmodEntriesPointwise(modes, denied, es, action);
    var once := Touch(modes, r.paths, action);
    ChmodEntriesPointwise(once, denied, es, action);
    TouchTwice(modes, r.paths, r.paths, action);
    assert r.paths + r.paths == r.paths;
  }

  /** A lock run clears owner-write on every path it reaches and changes nothing else. */
  lemma LockRunEffect(modes: map<Path, Mode>, denied: set<Path>, layout: Tree)
    ensures var out := PermsOutcome(modes, denied, layout, Lock);
      var r := Reached(modes.Keys, denied, Reversed(Pre(layout, [])));
      && out.modes.Keys == modes.Keys
      && out.finished == r.finished
      && (forall p :: p in modes && p in r.paths ==> out.modes[p] == modes[p] & !S_IWUSR)
      && (forall p :: p in modes && p !in r.paths ==> out.modes[p] == modes[p])
  {
    ChmodEntriesPointwise(modes, denied, Reversed(Pre(layout, [])), Lock);
    forall p | p in modes {
      LockClearsOwnerWrite(modes[p]);
    }
  }

  // ---------------------------------------------------------------------
  // .git is never touched

  /** No entry of the walk lies in or names a `.git`. */
  lemma {:induction false} PreAvoidsGit(t: Tree, at: Path)
    requires EXCLUDED !in at
    ensures forall e :: e in Pre(t, at) ==> EXCLUDED !in e.dir && EXCLUDED !in e.files
    decreases t
  {
    PreListAvoidsGit(t.dirs, at);
  }

  lemma {:induction false} PreListAvoidsGit(ds: seq<Tree>, at: Path)
    requires EXCLUDED !in at
    ensures forall e :: e in PreList(ds, at) ==> EXCLUDED !in e.dir && EXCLUDED !in e.files
    decreases ds
  {
    if ds != [] {
      if ds[0].name != EXCLUDED {
        PreAvoidsGit(ds[0], at + [ds[0].name]);
      }
      PreListAvoidsGit(ds[1..], at);
    }
  }

  lemma {:induction false} ReachedAvoidsGit(keys: set<Path>, denied: set<Path>, es: seq<Entry>)
    requires forall e :: e in es ==> EXCLUDED !in e.dir && EXCLUDED !in e.files
    ensures forall p :: p in Reached(keys, denied, es).paths ==> EXCLUDED !in p
    decreases |es|
  {
    if es != [] {
      assert es[0] in es;
      assert forall e :: e in es[1..] ==> e in es;
      ReachedAvoidsGit(keys, denied, es[1..]);
    }
  }

  /** Whatever lies in, or is named, `.git` keeps its mode, at any depth. */
  lemma ApplyPermsSparesGit(modes: map<Path, Mode>, denied: set<Path>, layout: Tree, action: Action)
    ensures var out := PermsOutcome(modes, denied, layout, action);
      forall p :: p in modes && EXCLUDED in p ==> p in out.modes && out.modes[p] == modes[p]
  {
    var walk := Pre(layout, []);
    var es := Reversed(walk);
    PreAvoidsGit(layout, []);
    assert forall e :: e in es ==> e in walk by {
      forall e | e in es ensures e in walk {
        var k :| 0 <= k < |es| && es[k] == e;
        assert walk[|walk| - 1 - k] == e;
      }
    }
    ReachedAvoidsGit(modes.Keys, denied, es);
    ChmodEntriesPointwise(modes, denied, es, action);
  }

  // ---------------------------------------------------------------------
  // Order: children before parents

  /** Subdirectory names within one directory are distinct, at every level. */
  predicate DistinctNames(ds: seq<Tree>) {
    forall i, j :: 0 <= i < j < |ds| ==> ds[i].name != ds[j].name
  }

  predicate WellFormed(t: Tree)
    decreases t
  {
    DistinctNames(t.dirs) && forall k :: 0 <= k < |t.dirs| ==> WellFormed(t.dirs[k])
  }

  function Names(ds: seq<Tree>): set<string> {
    set d | d in ds :: d.name
  }

  /** Top-down order: no entry is an ancestor of, or the same directory as, an earlier entry. */
  predicate AncestorsFirst(es: seq<Entry>) {
    forall i, j :: 0 <= i < j < |es| ==> !(es[j].dir <= es[i].dir)
  }

  /** Bottom-up order: no entry is an ancestor of, or the same directory as, a later entry. */
  predicate DescendantsFirst(es: seq<Entry>) {
    forall i, j :: 0 <= i < j < |es| ==> !(es[i].dir <= es[j].dir)
  }

  lemma {:induction false} PreShape(t: Tree, at: Path)
    ensures forall e :: e in Pre(t, at) ==> at <= e.dir
    decreases t
  {
    PreListShape(t.dirs, at);
  }

  lemma {:induction false} PreListShape(ds: seq<Tree>, at: Path)
    ensures forall e :: e in PreList(ds, at) ==> at < e.dir && e.dir[|at|] in Names(ds)
    decreases ds
  {
    if ds != [] {
      var n := ds[0].name;
      if n != EXCLUDED {
        PreShape(ds[0], at + [n]);
        assert forall e :: e in Pre(ds[0], at + [n]) ==> e.dir[|at|] == n;
      }
      PreListShape(ds[1..], at);
      assert Names(ds[1..]) <= Names(ds) by {
        forall d | d in ds[1..] ensures d in ds { }
      }
      assert ds[0] in ds;
    }
  }

  lemma AncestorsFirstConcat(a: seq<Entry>, b: seq<Entry>)
    requires AncestorsFirst(a) && AncestorsFirst(b)
    requires forall x, y :: x in a && y in b ==> !(y.dir <= x.dir)
    ensures AncestorsFirst(a + b)
  {
    var ab := a + b;
    forall i, j | 0 <= i < j < |ab|
      ensures !(ab[j].dir <= ab[i].dir)
    {
      if j < |a| {
        assert ab[i] == a[i] && ab[j] == a[j];
      } else if i >= |a| {
        assert ab[i] == b[i - |a|] && ab[j] == b[j - |a|];
      } else {
        assert ab[i] == a[i] && ab[j] == b[j - |a|];
        assert a[i] in a && b[j - |a|] in b;
      }
    }
  }

  /** A top-down walk of a well-formed tree never yields a directory after one of its descendants. */
  lemma {:induction false} PreAncestorsFirst(t: Tree, at: Path)
    requires WellFormed(t)
    ensures AncestorsFirst(Pre(t, at))
    decreases t
  {
    PreListAncestorsFirst(t.dirs, at);
    PreListShape(t.dirs, at);
    AncestorsFirstConcat([Entry(at, Keep(t.files))], PreList(t.dirs, at));
  }

  lemma {:induction false} PreListAncestorsFirst(ds: seq<Tree>, at: Path)
    requires DistinctNames(ds) && forall k :: 0 <= k < |ds| ==> WellFormed(ds[k])
    ensures AncestorsFirst(PreList(ds, at))
    decreases ds
  {
    if ds != [] {
      var n := ds[0].name;
      var rest := ds[1..];
      assert DistinctNames(rest) by {
        forall i, j | 0 <= i < j < |rest| ensures rest[i].name != rest[j].name {
          assert rest[i] == ds[i + 1] && rest[j] == ds[j + 1];
        }
      }
      PreListAncestorsFirst(rest, at);
      PreListShape(rest, at);
      assert n !in Names(rest) by {
        forall d | d in rest ensures d.name != n {
          var k :| 0 <= k < |rest| && rest[k] == d;
          assert ds[k + 1] == d;
        }
      }
      var first := if n == EXCLUDED then [] else Pre(ds[0], at + [n]);
      if n != EXCLUDED {
        PreAncestorsFirst(ds[0], at + [n]);
        PreShape(ds[0], at + [n]);
        forall x, y | x in first && y in PreList(rest, at)
          ensures !(y.dir <= x.dir)
        {
          assert x.dir[|at|] == n;
          assert y.dir[|at|] != n;
        }
      }
      AncestorsFirstConcat(first, PreList(rest, at));
    }
  }

  /** Reversing a top-down order gives a bottom-up one. */
  lemma ReversedFlipsOrder(walk: seq<Entry>)
    requires AncestorsFirst(walk)
    ensures DescendantsFirst(Reversed(walk))
  {
    var es := Reversed(walk);
    forall i, j | 0 <= i < j < |es|
      ensures !(es[i].dir <= es[j].dir)
    {
      assert es[i] == walk[|walk| - 1 - i] && es[j] == walk[|walk| - 1 - j];
    }
  }

  /** The reversed walk that `applyPerms` replays puts every directory after all of its descendants. */
  lemma ReversedWalkDescendantsFirst(layout: Tree)
    requires WellFormed(layout)
    ensures DescendantsFirst(Reversed(Pre(layout, [])))
  {
    PreAncestorsFirst(layout, []);
    ReversedFlipsOrder(Pre(layout, []));
  }

  /** One chmod attempt of the second phase: a file (skipped on failure) or a directory (fatal on failure). */
  datatype Step = File(path: Path) | Directory(path: Path)

  function FileSteps(dir: Path, files: seq<string>): (r: seq<Step>)
    ensures |r| == |files|
    ensures forall k :: 0 <= k < |r| ==> r[k] == File(dir + [files[k]])
  {
    if files == [] then [] else [File(dir + [files[0]])] + FileSteps(dir, files[1..])
  }

  /** The chmod attempts of the second phase, in the order they are made. */
  function Steps(es: seq<Entry>): seq<Step> {
    if es == [] then [] else FileSteps(es[0].dir, es[0].files) + [Directory(es[0].dir)] + Steps(es[1..])
  }

  /** The chmod attempts carried out one after the other. */
  function Run(modes: map<Path, Mode>, denied: set<Path>, steps: seq<Step>, action: Action): Outcome
    decreases |steps|
  {
    if steps == [] then Outcome(modes, true)
    else
      var p := steps[0].path;
      var ok := p in modes && p !in denied;
      if steps[0].Directory? && !ok then Outcome(modes, false)
      else Run(if ok then modes[p := Applied(modes[p], action)] else modes, denied, steps[1..], action)
  }

  lemma {:induction false} RunAppend(modes: map<Path, Mode>, denied: set<Path>, a: seq<Step>, b: seq<Step>, action: Action)
    ensures var r := Run(modes, denied, a, action);
      Run(modes, denied, a + b, action) == if r.finished then Run(r.modes, denied, b, action) else r
    decreases |a|
  {
    if a == [] {
      assert a + b == b;
    } else {
      assert (a + b)[0] == a[0] && (a + b)[1..] == a[1..] + b;
      var p := a[0].path;
      var ok := p in modes && p !in denied;
      if !(a[0].Directory? && !ok) {
        RunAppend(if ok then modes[p := Applied(modes[p], action)] else modes, denied, a[1..], b, action);
      }
    }
  }

  lemma {:induction false} RunFileSteps(modes: map<Path, Mode>, denied: set<Path>, dir: Path, files: seq<string>, action: Action)
    ensures Run(modes, denied, FileSteps(dir, files), action) == Outcome(ChmodFiles(modes, denied, dir, files, action), true)
    decreases |files|
  {
    if files != [] {
      var p := dir + [files[0]];
      RunFileSteps(if p in modes && p !in denied then modes[p := Applied(modes[p], action)] else modes, denied, dir, files[1..], action);
      assert FileSteps(dir, files)[1..] == FileSteps(dir, files[1..]);
    }
  }

  /** The entry-by-entry run is the flat run of its chmod attempts, so the attempts' order is the run's order. */
  lemma {:induction false} ChmodEntriesFollowsSteps(modes: map<Path, Mode>, denied: set<Path>, es: seq<Entry>, action: Action)
    ensures ChmodEntries(modes, denied, es, action) == Run(modes, denied, Steps(es), action)
    decreases |es|
  {
    if es != [] {
      var e := es[0];
      var fs := FileSteps(e.dir, e.files);
      RunAppend(modes, denied, fs, [Directory(e.dir)] + Steps(es[1..]), action);
      assert Steps(es) == fs + ([Directory(e.dir)] + Steps(es[1..]));
      RunFileSteps(modes, denied, e.dir, e.files, action);
      var m := ChmodFiles(modes, denied, e.dir, e.files, action);
      assert ([Directory(e.dir)] + Steps(es[1..]))[1..] == Steps(es[1..]);
      if !(e.dir !in m || e.dir in denied) {
        ChmodEntriesFollowsSteps(m[e.dir := Applied(m[e.dir], action)], denied, es[1..], action);
      }
    }
  }

  /** No chmod attempt is made on a path before an attempt on something beneath it. */
  predicate BelowFirst(steps: seq<Step>) {
    forall i, j :: 0 <= i < j < |steps| ==> !(steps[i].path < steps[j].path)
  }

  /** A strict prefix of `d` or of `d` plus one name is a prefix of `d`. */
  lemma ShorterPrefixOfChild(q: Path, d: Path, y: Path)
    requires y == d || (|y| == |d| + 1 && d <= y)
    ensures q < y ==> q <= d
  {
    if q < y {
      assert q == y[..|q|];
    }
  }

  lemma {:induction false} StepsAvoid(q: Path, es: seq<Entry>)
    requires forall k :: 0 <= k < |es| ==> !(q <= es[k].dir)
    ensures forall y :: y in Steps(es) ==> !(q < y.path)
    decreases |es|
  {
    if es != [] {
      StepsAvoid(q, es[1..]);
      var d := es[0].dir;
      assert !(q <= d);
      var block := FileSteps(d, es[0].files) + [Directory(d)];
      forall y | y in block ensures !(q < y.path) {
        ShorterPrefixOfChild(q, d, y.path);
      }
      assert Steps(es) == block + Steps(es[1..]);
    }
  }

  lemma BelowFirstConcat(a: seq<Step>, b: seq<Step>)
    requires BelowFirst(a) && BelowFirst(b)
    requires forall x, y :: x in a && y in b ==> !(x.path < y.path)
    ensures BelowFirst(a + b)
  {
    var ab := a + b;
    forall i, j | 0 <= i < j < |ab|
      ensures !(ab[i].path < ab[j].path)
    {
      if j < |a| {
        assert ab[i] == a[i] && ab[j] == a[j];
      } else if i >= |a| {
        assert ab[i] == b[i - |a|] && ab[j] == b[j - |a|];
      } else {
        assert ab[i] == a[i] && ab[j] == b[j - |a|];
        assert a[i] in a && b[j - |a|] in b;
      }
    }
  }

  lemma {:induction false} StepsBelowFirst(es: seq<Entry>)
    requires DescendantsFirst(es)
    ensures BelowFirst(Steps(es))
    decreases |es|
  {
    if es != [] {
      var d := es[0].dir;
      var rest := es[1..];
      assert DescendantsFirst(rest) by {
        forall i, j | 0 <= i < j < |rest| ensures !(rest[i].dir <= rest[j].dir) {
          assert rest[i] == es[i + 1] && rest[j] == es[j + 1];
        }
      }
      StepsBelowFirst(rest);
      assert forall k :: 0 <= k < |rest| ==> !(d <= rest[k].dir) by {
        forall k | 0 <= k < |rest| ensures !(d <= rest[k].dir) {
          assert rest[k] == es[k + 1];
        }
      }
      StepsAvoid(d, rest);
      var block := FileSteps(d, es[0].files) + [Directory(d)];
      assert BelowFirst(block) by {
        forall i, j | 0 <= i < j < |block| ensures !(block[i].path < block[j].path) {
          assert |block[i].path| >= |block[j].path|;
        }
      }
      forall x, y | x in block && y in Steps(rest)
        ensures !(x.path < y.path)
      {
        assert d <= x.path;
        assert x.path < y.path ==> d < y.path;
      }
      BelowFirstConcat(block, Steps(rest));
      assert Steps(es) == block + Steps(rest);
    }
  }

  /**
   * `applyPerms` on a well-formed tree: its chmod attempts are exactly the
   * steps of the reversed walk, and no path is attempted before something
   * beneath it — every directory after its own files and after all of its
   * kept subdirectories.
   */
  lemma ChildrenBeforeParents(modes: map<Path, Mode>, denied: set<Path>, layout: Tree, action: Action)
    requires WellFormed(layout)
    ensures var steps := Steps(Reversed(Pre(layout, [])));
      PermsOutcome(modes, denied, layout, action) == Run(modes, denied, steps, action) && BelowFirst(steps)
  {
    ChmodEntriesFollowsSteps(modes, denied, Reversed(Pre(layout, [])), action);
    ReversedWalkDescendantsFirst(layout);
    StepsBelowFirst(Reversed(Pre(layout, [])));
  }
}
