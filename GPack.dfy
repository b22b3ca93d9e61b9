/**
 * The per-repository commands of `gpack`: install, update, clean and
 * uninstall. Each records the effects it performs as a trace of events;
 * `Replay` gives the ledger those effects leave behind.
 */
module GPack {
  import opened Options
  import opened GitOps
  import opened PosixPath
  import opened LockLedger
  import RepoDescriptor

  // ---------------------------------------------------------------------
  // The ledger seen through a trace

  /** The ledger entries after one event for the directory `d`, when its permission pass finishes. */
  function LedgerStep(entries: seq<string>, d: string, e: Event): (r: seq<string>)
    ensures e == Unlock ==> d in r
    ensures e == Lock ==> d !in r
    ensures forall x :: x != d ==> (x in r <==> x in entries)
  {
    if e == Unlock then (if d in entries then entries else entries + [d])
    else if e == Lock then Without(entries, d)
    else entries
  }

  /** The ledger entries after every event of a trace. */
  function LedgerSteps(entries: seq<string>, d: string, trace: seq<Event>): (r: seq<string>)
    ensures forall x :: x != d ==> (x in r <==> x in entries)
    decreases |trace|
  {
    if trace == [] then entries else LedgerSteps(LedgerStep(entries, d, trace[0]), d, trace[1..])
  }

  /**
   * The ledger text after one event: `unlock` or `lock` on an existing
   * directory, whose permission pass finishes or raises, and nothing for
   * the others. A pass that raises leaves the file `lock` and `unlock`
   * emptied before it.
   */
  function Apply(text: string, d: string, e: Event, finished: bool): (r: string)
    ensures e != Unlock && e != Lock ==> r == text
    ensures !finished && (e == Unlock || e == Lock) ==> ReadLedger(r) == []
  {
    if e == Unlock then UnlockedText(ReadLedger(text), d, finished)
    else if e == Lock then LockedText(ReadLedger(text), d, true, finished)
    else text
  }

  /**
   * The ledger text after every event of a trace, the passes all finishing
   * or all raising. No entry but the directory's own changes when they
   * finish; once one raises the ledger reads as empty.
   */
  function Replay(text: string, d: string, trace: seq<Event>, finished: bool): (r: string)
    ensures Storable(d) && finished ==> forall x :: x != d ==> (x in ReadLedger(r) <==> x in ReadLedger(text))
    ensures Unlock !in trace && Lock !in trace ==> r == text
    ensures !finished && (ReadLedger(text) == [] || Unlock in trace || Lock in trace) ==> ReadLedger(r) == []
    decreases |trace|
  {
    if trace == [] then text
    else
      assert forall x :: x in trace <==> x == trace[0] || x in trace[1..];
      if Storable(d) && finished then
        ApplyReadsAsStep(text, d, trace[0]);
        Replay(Apply(text, d, trace[0], finished), d, trace[1..], finished)
      else Replay(Apply(text, d, trace[0], finished), d, trace[1..], finished)
  }

  /** Reading the ledger back after one event gives the entry-level step. */
  lemma ApplyReadsAsStep(text: string, d: string, e: Event)
    requires Storable(d)
    ensures ReadLedger(Apply(text, d, e, true)) == LedgerStep(ReadLedger(text), d, e)
  {
    var entries := ReadLedger(text);
    if e == Unlock {
      if d in entries {
        LedgerRoundTrip(entries);
      } else {
        assert AllStorable(entries + [d]);
        LedgerRoundTrip(entries + [d]);
      }
    } else if e == Lock {
      LockForgets(text, d);
    }
  }

  /** The text-level replay of a trace reads back as its entry-level steps. */
  lemma {:induction false} ReplayReadsAsSteps(text: string, d: string, trace: seq<Event>)
    requires Storable(d)
    ensures ReadLedger(Replay(text, d, trace, true)) == LedgerSteps(ReadLedger(text), d, trace)
    decreases |trace|
  {
    if trace != [] {
      ApplyReadsAsStep(text, d, trace[0]);
      ReplayReadsAsSteps(Apply(text, d, trace[0], true), d, trace[1..]);
      LedgerStepsReadBack(Apply(text, d, trace[0], true), LedgerStep(ReadLedger(text), d, trace[0]), d, trace[1..]);
    }
  }

  /** Steps depend only on the entries they start from. */
  lemma LedgerStepsReadBack(text: string, entries: seq<string>, d: string, trace: seq<Event>)
    requires ReadLedger(text) == entries
    ensures LedgerSteps(ReadLedger(text), d, trace) == LedgerSteps(entries, d, trace)
  {
  }

  lemma {:induction false} LedgerStepsAppend(entries: seq<string>, d: string, a: seq<Event>, b: seq<Event>)
    ensures LedgerSteps(entries, d, a + b) == LedgerSteps(LedgerSteps(entries, d, a), d, b)
    decreases |a|
  {
    if a == [] {
      assert a + b == b;
    } else {
      assert (a + b)[0] == a[0] && (a + b)[1..] == a[1..] + b;
      LedgerStepsAppend(LedgerStep(entries, d, a[0]), d, a[1..], b);
    }
  }

  lemma StepsOne(entries: seq<string>, d: string, e: Event)
    ensures LedgerSteps(entries, d, [e]) == LedgerStep(entries, d, e)
  {
    assert [e][1..] == [];
  }

  /** One more event applies one more step to the entries. */
  lemma StepsSnoc(entries: seq<string>, d: string, trace: seq<Event>, e: Event)
    ensures LedgerSteps(entries, d, trace + [e]) == LedgerStep(LedgerSteps(entries, d, trace), d, e)
  {
    LedgerStepsAppend(entries, d, trace, [e]);
    StepsOne(LedgerSteps(entries, d, trace), d, e);
  }

  lemma {:induction false} LedgerStepsQuiet(entries: seq<string>, d: string, trace: seq<Event>)
    requires Unlock !in trace && Lock !in trace
    ensures LedgerSteps(entries, d, trace) == entries
    decreases |trace|
  {
    if trace != [] {
      assert trace[0] in trace;
      assert forall e :: e in trace[1..] ==> e in trace;
      LedgerStepsQuiet(entries, d, trace[1..]);
    }
  }

  /** Locking right after the unlock that appended `d` restores the earlier ledger. */
  lemma LockUndoesUnlock(entries: seq<string>, d: string)
    requires d !in entries
    ensures Without(entries + [d], d) == entries
  {
    WithoutConcat(entries, [d], d);
    WithoutAbsent(entries, d);
    assert Without([d], d) == [];
    assert entries + [] == entries;
  }

  /** For a locked directory the ledger only ever holds the original entries, or those and the directory at the end. */
  lemma ToggleStep(entries: seq<string>, d: string, e: Event)
    requires d !in entries
    ensures LedgerStep(entries, d, e) == if e == Unlock then entries + [d] else entries
    ensures LedgerStep(entries + [d], d, e) == if e == Lock then entries else entries + [d]
  {
    LockUndoesUnlock(entries, d);
    WithoutAbsent(entries, d);
    assert d in entries + [d];
  }

  /** While a locked directory is toggled, one more event unlists it, lists it again at the end, or changes nothing. */
  lemma ToggleSnoc(entries: seq<string>, d: string, trace: seq<Event>, e: Event)
    requires d !in entries
    requires LedgerSteps(entries, d, trace) == entries || LedgerSteps(entries, d, trace) == entries + [d]
    ensures LedgerSteps(entries, d, trace + [e])
         == if e == Unlock then entries + [d] else if e == Lock then entries else LedgerSteps(entries, d, trace)
  {
    StepsSnoc(entries, d, trace, e);
    ToggleStep(entries, d, e);
  }

  /** Events other than `unlock` and `lock` leave the entries as they are, wherever they are appended. */
  lemma QuietTail(entries: seq<string>, d: string, trace: seq<Event>, quiet: seq<Event>)
    requires Unlock !in quiet && Lock !in quiet
    ensures LedgerSteps(entries, d, trace + quiet) == LedgerSteps(entries, d, trace)
  {
    LedgerStepsAppend(entries, d, trace, quiet);
    LedgerStepsQuiet(LedgerSteps(entries, d, trace), d, quiet);
  }

  /** Up to the log comparison, a locked directory is listed exactly when it was dirty (and so unlocked for the rinse). */
  lemma FetchedEffect(entries: seq<string>, d: string, clean: bool, here: Place)
    requires d !in entries
    ensures var first := [Status(Mirror)];
      var fetched := (if clean then first else first + [Unlock, Rinse]) + [Fetch(here), Compare(here)];
      LedgerSteps(entries, d, fetched) == if clean then entries else entries + [d]
  {
    var first := [Status(Mirror)];
    if clean {
      LedgerStepsQuiet(entries, d, first + [Fetch(here), Compare(here)]);
    } else {
      LedgerStepsQuiet(entries, d, first);
      ToggleSnoc(entries, d, first, Unlock);
      QuietTail(entries, d, first + [Unlock], [Rinse, Fetch(here), Compare(here)]);
      assert first + [Unlock] + [Rinse, Fetch(here), Compare(here)]
          == first + [Unlock, Rinse] + [Fetch(here), Compare(here)];
    }
  }

  /** After the pull's unlock a locked directory is listed; the final lock, if any, unlists it again. */
  lemma PulledEffect(entries: seq<string>, d: string, fetched: seq<Event>, after: Place)
    requires d !in entries
    requires LedgerSteps(entries, d, fetched) == entries || LedgerSteps(entries, d, fetched) == entries + [d]
    ensures var pulled := fetched + [Unlock, Pull(after), Status(after)];
      && LedgerSteps(entries, d, pulled + [Lock]) == entries
      && LedgerSteps(entries, d, pulled + [Rinse, Status(after), Lock]) == entries
      && LedgerSteps(entries, d, pulled + [Rinse, Status(after)]) == entries + [d]
  {
    var pulled := fetched + [Unlock, Pull(after), Status(after)];
    ToggleSnoc(entries, d, fetched, Unlock);
    QuietTail(entries, d, fetched + [Unlock], [Pull(after), Status(after)]);
    assert fetched + [Unlock] + [Pull(after), Status(after)] == pulled;
    ToggleSnoc(entries, d, pulled, Lock);
    var rinsed := pulled + [Rinse, Status(after)];
    QuietTail(entries, d, pulled, [Rinse, Status(after)]);
    ToggleSnoc(entries, d, rinsed, Lock);
    assert rinsed + [Lock] == pulled + [Rinse, Status(after), Lock];
  }

  /**
   * The effects `update` has on a locked repository, as the ledger sees
   * them, whether or not it changes back into the mirror.
   */
  lemma LockedUpdateEffect(entries: seq<string>, d: string, f: Facts, back: bool)
    requires d !in entries
    ensures var outcome := Flow(true, f, back);
      LedgerSteps(entries, d, outcome.1) == if outcome.0 then entries else entries + [d]
  {
    var after := if back then Mirror else Root;
    var here := if f.clean then Mirror else after;
    var first := [Status(Mirror)];
    var fetched := (if f.clean then first else first + [Unlock, Rinse]) + [Fetch(here), Compare(here)];
    FetchedEffect(entries, d, f.clean, here);
    if f.matched {
      ToggleSnoc(entries, d, fetched, Lock);
      assert Flow(true, f, back).1 == fetched + [Lock];
    } else {
      var pulled := fetched + [Unlock, Pull(after), Status(after)];
      PulledEffect(entries, d, fetched, after);
      if f.cleanAfterPull {
        assert Flow(true, f, back).1 == pulled + [Lock];
      } else if f.cleanAfterRinse {
        assert Flow(true, f, back).1 == pulled + [Rinse, Status(after), Lock];
      } else {
        assert Flow(true, f, back).1 == pulled + [Rinse, Status(after)];
      }
    }
  }

  /**
   * `update` leaves the ledger as it found it, except that a locked
   * repository that could not be brought back to a clean state stays
   * unlocked, appended at the end.
   */
  lemma UpdateLedgerEffect(entries: seq<string>, d: string, f: Facts, back: bool)
    ensures var locked := IsLocked(entries, d);
      var outcome := Flow(locked, f, back);
      LedgerSteps(entries, d, outcome.1) == if locked && !outcome.0 then entries + [d] else entries
  {
    if IsLocked(entries, d) {
      LockedUpdateEffect(entries, d, f, back);
    } else {
      UnlockedNeverTouched(f, back);
      LedgerStepsQuiet(entries, d, Flow(false, f, back).1);
    }
  }

  /**
   * After `updateRepo` on an existing mirror every ledger entry is as it
   * was: a mirror that had to be recloned is locked again at the end.
   */
  lemma UpdateRepoKeepsLedger(entries: seq<string>, d: string, f: Facts)
    ensures var outcome := Decide(IsLocked(entries, d), f);
      var trace := outcome.1 + (if outcome.0 then [] else [RemoveTree(d), Clone, Lock]);
      LedgerSteps(entries, d, trace) == entries
  {
    var ok, t := Decide(IsLocked(entries, d), f).0, Decide(IsLocked(entries, d), f).1;
    UpdateLedgerEffect(entries, d, f, false);
    if !ok {
      FalseOnlyWhenRinseFails(IsLocked(entries, d), f, false);
      LockUndoesUnlock(entries, d);
      assert t + [RemoveTree(d), Clone, Lock] == t + [RemoveTree(d)] + [Clone] + [Lock];
      StepsSnoc(entries, d, t, RemoveTree(d));
      StepsSnoc(entries, d, t + [RemoveTree(d)], Clone);
      StepsSnoc(entries, d, t + [RemoveTree(d)] + [Clone], Lock);
    } else {
      assert t + [] == t;
    }
  }

  /**
   * The same for the ledger file: what `updateRepo` leaves reads back as
   * what it found, unless the mirror is locked and its permission passes
   * raise; then the first pass of `update` raises and the ledger is left
   * empty.
   */
  lemma UpdateRepoKeepsLedgerFile(text: string, d: string, f: Facts, finishes: bool)
    requires Storable(d)
    ensures var locked := IsLocked(ReadLedger(text), d);
      var outcome := Attempt(locked, f, finishes);
      var trace := outcome.1 + (if outcome.0 == Some(false) then [RemoveTree(d), Clone, Lock] else []);
      ReadLedger(Replay(text, d, trace, finishes)) == if locked && !finishes then [] else ReadLedger(text)
  {
    var locked := IsLocked(ReadLedger(text), d);
    var outcome := Attempt(locked, f, finishes);
    var trace := outcome.1 + (if outcome.0 == Some(false) then [RemoveTree(d), Clone, Lock] else []);
    if finishes {
      assert outcome == (Some(Decide(locked, f).0), Decide(locked, f).1);
      ReplayReadsAsSteps(text, d, trace);
      UpdateRepoKeepsLedger(ReadLedger(text), d, f);
    } else {
      RaisingUpdateEmptiesLedger(text, d, f);
      if !locked {
        UnlockedNeverTouched(f, false);
      }
      assert trace == outcome.1 + [];
    }
  }

  /**
   * A raising pass inside `update` ends it at the first `unlock` or `lock`
   * of a locked repository, with the ledger read back empty; an unlocked
   * repository never reaches a pass and keeps its ledger text.
   */
  lemma RaisingUpdateEmptiesLedger(text: string, d: string, f: Facts)
    ensures var locked := IsLocked(ReadLedger(text), d);
      var outcome := Attempt(locked, f, false);
      && (outcome.0.None? <==> locked)
      && (locked ==> ReadLedger(Replay(text, d, outcome.1, false)) == [])
      && (!locked ==> Replay(text, d, outcome.1, false) == text)
  {
    var locked := IsLocked(ReadLedger(text), d);
    var outcome := Attempt(locked, f, false);
    if locked {
      assert outcome.1[|outcome.1| - 1] in outcome.1;
    } else {
      UnlockedNeverTouched(f, false);
    }
  }

  // ---------------------------------------------------------------------
  // Commands

  /**
   * `installRepo`: clone a missing mirror, then lock it if its policy says
   * so. `finishes` says whether the mirror's permission passes run to the
   * end; `completed` is false when the lock raises.
   */
  method InstallRepo(repo: RepoDescriptor.Repo, isDir: bool, finishes: bool) returns (completed: bool, trace: seq<Event>)
    ensures isDir ==> completed && trace == []
    ensures !isDir ==> (trace == [Clone] || trace == [Clone, Lock]) && (Lock in trace <==> repo.lock)
    ensures !isDir ==> (completed <==> !repo.lock || finishes)
  {
    trace := [];
    if !isDir {
      trace := trace + [Clone];
      if repo.lock == true {
        trace := trace + [Lock];
        if !finishes {
          return false, trace;
        }
      }
    }
    completed := true;
  }

  /**
   * `updateRepo`: a missing mirror is cloned and locked; an update that
   * returns False is followed by deleting, recloning and locking the mirror.
   * `completed` is false when `update` or the lock raised: no ledger file,
   * or a permission pass that raises.
   */
  method UpdateRepo(repo: RepoDescriptor.Repo, isDir: bool, ledger: LockFile, rp: UpdateReplies, finishes: bool)
    returns (completed: bool, trace: seq<Event>)
    ensures !isDir ==> completed == finishes && trace == [Clone, Lock]
    ensures isDir && !ledger.present ==> !completed && trace == []
    ensures isDir && ledger.present ==>
      var outcome := Attempt(IsLocked(ReadLedger(ledger.text), repo.directory), Observe(rp), finishes);
      && (completed <==> outcome.0.Some?)
      && trace == outcome.1 + (if outcome.0 == Some(false) then [RemoveTree(repo.directory), Clone, Lock] else [])
  {
    if !isDir {
      return finishes, [Clone, Lock];
    }
    var result;
    result, trace := repo.Update(ledger, rp, finishes);
    if result.None? {
      return false, trace;
    }
    if result.value == false {
      trace := trace + [RemoveTree(repo.directory), Clone, Lock];
      if !finishes {
        return false, trace;
      }
    }
    completed := true;
  }

  /**
   * `cleanRepo`: on an existing mirror, unlock it if the ledger shows it
   * locked, then rinse. It is never locked again. `completed` is false when
   * the ledger file is missing (opening it raises) or the unlock raises,
   * which skips the rinse and leaves the ledger empty.
   */
  method CleanRepo(repo: RepoDescriptor.Repo, isDir: bool, ledger: LockFile, finishes: bool)
    returns (completed: bool, trace: seq<Event>)
    ensures !isDir ==> completed && trace == []
    ensures isDir && !ledger.present ==> !completed && trace == []
    ensures isDir && ledger.present ==>
      var locked := repo.directory !in ReadLedger(ledger.text);
      && (completed <==> !locked || finishes)
      && trace == (if locked then [Unlock] else []) + (if completed then [Rinse] else [])
      && (completed ==> repo.directory in LedgerSteps(ReadLedger(ledger.text), repo.directory, trace))
      && (!completed ==> ReadLedger(Replay(ledger.text, repo.directory, trace, false)) == [])
  {
    trace := [];
    if !isDir {
      return true, [];
    }
    if !ledger.present {
      return false, [];
    }
    if repo.directory !in ReadLedger(ledger.text) {
      trace := trace + [Unlock];
      if !finishes {
        assert Unlock in trace;
        return false, trace;
      }
    }
    trace := trace + [Rinse];
    completed := true;
    StepsOne(ReadLedger(ledger.text), repo.directory, Unlock);
    StepsSnoc(ReadLedger(ledger.text), repo.directory, trace[..|trace| - 1], Rinse);
    assert trace == trace[..|trace| - 1] + [Rinse];
  }

  /** `getFile`: the entry of the parent directory's listing that equals the mirror's name, if any. */
  method GetFile(listing: seq<string>, name: string) returns (file: Option<string>)
    ensures file.Some? <==> name in listing
    ensures file.Some? ==> file.value == name
  {
    var i := 0;
    while i < |listing|
      invariant 0 <= i <= |listing|
      invariant name !in listing[..i]
    {
      if listing[i] == name {
        return Some(listing[i]);
      }
      assert listing[..i + 1] == listing[..i] + [listing[i]];
      i := i + 1;
    }
    assert listing[..i] == listing;
    return None;
  }

  /**
   * `repoUninstall`: unlock an existing mirror, then delete
   * `dirname + "/" + getFile(repo)`. When the unlock raises, nothing is
   * deleted; when the name is not listed the concatenation raises and
   * nothing is deleted either (`completed` is false in both cases).
   */
  method RepoUninstall(repo: RepoDescriptor.Repo, isDir: bool, listing: seq<string>, finishes: bool)
    returns (completed: bool, trace: seq<Event>)
    ensures !isDir ==> completed && trace == []
    ensures isDir ==> (completed <==> finishes && repo.name in listing)
    ensures isDir && completed ==> trace == [Unlock, RemoveTree(repo.dirname + "/" + repo.name)]
    ensures isDir && !completed ==> trace == [Unlock]
    ensures isDir && completed && repo.Valid() && SplitsCleanly(repo.directory) ==>
      trace == [Unlock, RemoveTree(repo.directory)]
  {
    if !isDir {
      return true, [];
    }
    trace := [Unlock];
    if !finishes {
      return false, trace;
    }
    var file := GetFile(listing, repo.name);
    if file.None? {
      return false, trace;
    }
    trace := trace + [RemoveTree(repo.dirname + "/" + file.value)];
    completed := true;
    if repo.Valid() && SplitsCleanly(repo.directory) {
      DirnameBasenameRebuild(repo.directory);
    }
  }
}
