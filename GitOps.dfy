/**
 * The git side of GitPack: classifiers over the output of git commands,
 * the relabelling of git's error text, the command sequences of `rinse`,
 * `fetch` and `push`, and the `update` decision procedure. Git itself is
 * an oracle: each command's exit status and output are inputs.
 */
module GitOps {
  import opened Options
  import opened PyText
  import LockLedger

  /** What `subprocess.check_output` gives back: success (exit status 0) and the decoded output. */
  datatype CmdResult = CmdResult(ok: bool, output: string)

  /** A command line, as the argument list passed to `check_output`. */
  type Argv = seq<string>

  /**
   * Where a command that takes no directory of its own runs: the gpack
   * root (`ROOT_DIR`, where `lock`, `unlock` and `rinse` leave the process)
   * or the mirror (`repo.directory`, where `update` starts).
   */
  datatype Place = Root | Mirror

  /**
   * The effects `update` and the commands around it perform, in the order
   * they happen. `Status` is `localClean`'s `git status -u`, `Compare` is
   * `commitsMatch`'s pair of `git log` calls, and `Pull` is the xterm
   * running `git pull && git submodule update --recursive`; each runs in
   * the process's current directory, which the event records. `Rinse`
   * enters the mirror itself; `Lock` and `Unlock` use absolute paths.
   */
  datatype Event =
    | Unlock | Rinse | Lock | Clone | RemoveTree(path: string)
    | Status(at: Place) | Fetch(at: Place) | Compare(at: Place) | Pull(at: Place)

  /** The current directory an event ran in, for the events that depend on it. */
  function Where(e: Event): Option<Place> {
    if e.Status? || e.Fetch? || e.Compare? || e.Pull? then Some(e.at) else None
  }

  // ---------------------------------------------------------------------
  // Classifiers

  const CLEAN_MESSAGE: string := "nothing to commit, working directory clean"

  /** `localClean`: `git status -u` succeeded and reported a clean tree. */
  function LocalClean(status: CmdResult): (r: bool)
    ensures r ==> status.ok && |CLEAN_MESSAGE| <= |status.output|
  {
    if status.ok && Contains(status.output, CLEAN_MESSAGE) then
      ContainsLength(status.output, CLEAN_MESSAGE);
      true
    else false
  }

  /** `pat` occurs in `s` starting at index `i`. */
  predicate OccursAt(s: string, pat: string, i: nat) {
    i + |pat| <= |s| && s[i..i + |pat|] == pat
  }

  /** `localClean` is true exactly when the status command succeeded and its output holds the clean message somewhere. */
  lemma LocalCleanExactly(status: CmdResult)
    ensures LocalClean(status) <==> (status.ok && exists i: nat :: OccursAt(status.output, CLEAN_MESSAGE, i))
  {
    if LocalClean(status) {
      var i := ContainsAt(status.output, CLEAN_MESSAGE);
      assert OccursAt(status.output, CLEAN_MESSAGE, i);
    }
    if status.ok && exists i: nat :: OccursAt(status.output, CLEAN_MESSAGE, i) {
      var i: nat :| OccursAt(status.output, CLEAN_MESSAGE, i);
      AtContains(status.output, CLEAN_MESSAGE, i);
    }
  }

  /** Git's clean report wrapped in any other text is recognised. */
  lemma LocalCleanAround(before: string, after: string)
    ensures LocalClean(CmdResult(true, before + CLEAN_MESSAGE + after))
    ensures !LocalClean(CmdResult(false, before + CLEAN_MESSAGE + after))
  {
    ContainsEmbedded(before, CLEAN_MESSAGE, after);
  }

  /** `git log`, the local half of `commitsMatch`. */
  function LocalLogCommand(): Argv {
    ["git", "log"]
  }

  /** `git log origin/<branch>`, the remote half. */
  function RemoteLogCommand(branch: string): Argv {
    ["git", "log", "origin/" + branch]
  }

  /** Two `git log` replies show the same history: both succeeded and printed the same text. */
  predicate LogsAgree(local: CmdResult, remote: CmdResult) {
    local.ok && remote.ok && local.output == remote.output
  }

  /**
   * `commitsMatch`: run `git log` and answer False if it fails, then run
   * `git log origin/<branch>` and answer False if that fails, else compare
   * the two outputs. `ran` lists the commands run.
   */
  method CommitsMatch(branch: string, git: Argv -> CmdResult) returns (matched: bool, ran: seq<Argv>)
    ensures matched <==> git(LocalLogCommand()).ok && git(RemoteLogCommand(branch)).ok
                         && git(LocalLogCommand()).output == git(RemoteLogCommand(branch)).output
    ensures matched == LogsAgree(git(LocalLogCommand()), git(RemoteLogCommand(branch)))
    ensures ran == if git(LocalLogCommand()).ok then [LocalLogCommand(), RemoteLogCommand(branch)] else [LocalLogCommand()]
  {
    var local := git(LocalLogCommand());
    ran := [LocalLogCommand()];
    if !local.ok {
      return false, ran;
    }
    var remote := git(RemoteLogCommand(branch));
    ran := ran + [RemoteLogCommand(branch)];
    if !remote.ok {
      return false, ran;
    }
    matched := local.output == remote.output;
  }

  /** `git rev-parse --abbrev-ref HEAD`, the query behind `current_branch`. */
  function RevParseCommand(): Argv {
    ["git", "rev-parse", "--abbrev-ref", "HEAD"]
  }

  /** `current_branch`: what the rev-parse query prints, or "" when it fails. */
  function CurrentBranch(git: Argv -> CmdResult): (branch: string)
    ensures !git(RevParseCommand()).ok ==> branch == "" && Strip(branch) != "master"
    ensures git(RevParseCommand()).ok ==> branch == git(RevParseCommand()).output
  {
    if git(RevParseCommand()).ok then git(RevParseCommand()).output else ""
  }

  function NonEmpty(pieces: seq<string>): (r: seq<string>)
    ensures forall k :: 0 <= k < |r| ==> r[k] != [] && r[k] in pieces
  {
    if pieces == [] then []
    else (if pieces[0] == "" then [] else [pieces[0]]) + NonEmpty(pieces[1..])
  }

  /** `viewTags`: the non-empty lines of `git tag -l`, in order, or nothing when it fails. */
  function ViewTags(tagList: CmdResult): (tags: seq<string>)
    ensures !tagList.ok ==> tags == []
    ensures forall k :: 0 <= k < |tags| ==> tags[k] != [] && '\n' !in tags[k]
  {
    if tagList.ok then NonEmpty(SplitLines(tagList.output)) else []
  }

  lemma {:induction false} NonEmptySplitOfLines(tags: seq<string>)
    requires forall k :: 0 <= k < |tags| ==> tags[k] != [] && '\n' !in tags[k]
    ensures NonEmpty(SplitLines(Lines(tags))) == tags
    decreases |tags|
  {
    if tags == [] {
      assert SplitLines("") == [""];
    } else {
      SplitLinesCons(tags[0], Lines(tags[1..]));
      NonEmptySplitOfLines(tags[1..]);
      assert ([tags[0]] + SplitLines(Lines(tags[1..])))[1..] == SplitLines(Lines(tags[1..]));
    }
  }

  /** Git lists one tag per line; `viewTags` gives back exactly those tags, in order. */
  lemma ViewTagsRoundTrip(tags: seq<string>)
    requires forall k :: 0 <= k < |tags| ==> tags[k] != [] && '\n' !in tags[k]
    ensures ViewTags(CmdResult(true, Lines(tags))) == tags
  {
    NonEmptySplitOfLines(tags);
  }

  // ---------------------------------------------------------------------
  // Relabelling git's error text

  /**
   * What `clone`, `pull`, `fetch` and the tag commands print on failure:
   * "error" becomes "gpack" if present, otherwise "fatal" does, and the
   * result is stripped.
   */
  function Relabel(e: string): (r: string)
    ensures !Contains(r, "error")
  {
    if Contains(e, "error") then
      ReplaceRemovesAll(e, "error", "gpack");
      NotContainsStrip(Replace(e, "error", "gpack"), "error");
      Strip(Replace(e, "error", "gpack"))
    else
      ReplaceKeepsAbsence(e, "fatal", "gpack", "error");
      NotContainsStrip(Replace(e, "fatal", "gpack"), "error");
      Strip(Replace(e, "fatal", "gpack"))
  }

  /** What `rinse` prints on failure: only "fatal" is relabelled. */
  function RinseMessage(e: string): string {
    Strip(Replace(e, "fatal", "gpack"))
  }

  lemma NotContainsStrip(s: string, pat: string)
    requires !Contains(s, pat)
    ensures !Contains(Strip(s), pat)
  {
    var lo, hi := StripIsBareSlice(s);
    NotContainsSlice(s, lo, hi, pat);
  }

  /**
   * A relabelled message never shows "error"; when the original had no
   * "error", it shows no "fatal" either; text with neither is only stripped.
   */
  lemma RelabelHidesGitWords(e: string)
    ensures !Contains(Relabel(e), "error")
    ensures !Contains(e, "error") ==> !Contains(Relabel(e), "fatal")
    ensures !Contains(e, "error") && !Contains(e, "fatal") ==> Relabel(e) == Strip(e)
  {
    if Contains(e, "error") {
      ReplaceRemovesAll(e, "error", "gpack");
      NotContainsStrip(Replace(e, "error", "gpack"), "error");
    } else {
      ReplaceRemovesAll(e, "fatal", "gpack");
      NotContainsStrip(Replace(e, "fatal", "gpack"), "fatal");
      ReplaceKeepsAbsence(e, "fatal", "gpack", "error");
      NotContainsStrip(Replace(e, "fatal", "gpack"), "error");
      if !Contains(e, "fatal") {
        ReplaceAbsent(e, "fatal", "gpack");
      }
    }
  }

  /** A `rinse` failure message never shows "fatal", and one without it is only stripped. */
  lemma RinseMessageHidesFatal(e: string)
    ensures !Contains(RinseMessage(e), "fatal")
    ensures !Contains(e, "fatal") ==> RinseMessage(e) == Strip(e)
  {
    ReplaceRemovesAll(e, "fatal", "gpack");
    NotContainsStrip(Replace(e, "fatal", "gpack"), "fatal");
    if !Contains(e, "fatal") {
      ReplaceAbsent(e, "fatal", "gpack");
    }
  }

  // ---------------------------------------------------------------------
  // Command sequences

  /**
   * A `try` block of consecutive `check_output` calls: run the commands in
   * order until one fails. `ran` are the commands started; `failure` is the
   * failing command's result, if any.
   */
  /**
   * `ran` is what running `cmds` in order and stopping at the first failure
   * runs: every command but the last succeeded, and a run cut short ends
   * with the command that failed.
   */
  predicate StopsAtFirstFailure(cmds: seq<Argv>, ran: seq<Argv>, git: Argv -> CmdResult) {
    && (forall k :: 0 <= k < |ran| - 1 ==> git(ran[k]).ok)
    && (ran != cmds ==> ran != [] && !git(ran[|ran| - 1]).ok)
  }

  method RunUntilFailure(cmds: seq<Argv>, git: Argv -> CmdResult) returns (ran: seq<Argv>, failure: Option<CmdResult>)
    ensures ran <= cmds
    ensures StopsAtFirstFailure(cmds, ran, git)
    ensures failure.None? ==> ran == cmds
    ensures failure.Some? ==> ran != [] && failure.value == git(ran[|ran| - 1]) && !failure.value.ok
    ensures forall k :: 0 <= k < |ran| && (failure.None? || k < |ran| - 1) ==> git(ran[k]).ok
  {
    ran := [];
    failure := None;
    var i := 0;
    while i < |cmds|
      invariant 0 <= i <= |cmds|
      invariant ran == cmds[..i]
      invariant forall k :: 0 <= k < i ==> git(cmds[k]).ok
    {
      var r := git(cmds[i]);
      ran := ran + [cmds[i]];
      if !r.ok {
        failure := Some(r);
        return;
      }
      i := i + 1;
    }
    assert cmds[..i] == cmds;
  }

  function RinseCommands(branch: string): seq<Argv> {
    [ ["git", "clean", "-xdff"],
      ["git", "reset", "--hard", "origin/" + branch],
      ["git", "submodule", "foreach", "--recursive", "git", "clean", "-xdff"],
      ["git", "submodule", "foreach", "--recursive", "git", "reset", "--hard"],
      ["git", "submodule", "update", "--init", "--recursive"] ]
  }

  /**
   * `rinse`: clean, hard-reset to the remote branch, then the same for the
   * submodules, stopping at the first failure, whose output is reported.
   */
  method RinseRepo(branch: string, git: Argv -> CmdResult) returns (ran: seq<Argv>, message: Option<string>)
    ensures ran <= RinseCommands(branch) && ran != []
    ensures ran[0] == ["git", "clean", "-xdff"]
    ensures message.None? <==> ran == RinseCommands(branch) && forall k :: 0 <= k < |ran| ==> git(ran[k]).ok
    ensures message.Some? ==> message.value == RinseMessage(git(ran[|ran| - 1]).output) && !git(ran[|ran| - 1]).ok
    ensures forall k :: 0 <= k < |ran| - 1 ==> git(ran[k]).ok
  {
    var failure;
    ran, failure := RunUntilFailure(RinseCommands(branch), git);
    if failure.None? {
      message := None;
    } else {
      message := Some(RinseMessage(failure.value.output));
    }
  }

  /** `fetch`: `git fetch`, reporting relabelled output on failure. */
  method FetchRemote(git: Argv -> CmdResult) returns (message: Option<string>)
    ensures message.None? <==> git(["git", "fetch"]).ok
    ensures message.Some? ==> message.value == Relabel(git(["git", "fetch"]).output)
  {
    var r := git(["git", "fetch"]);
    if r.ok {
      message := None;
    } else {
      message := Some(Relabel(r.output));
    }
  }

  function PushCommands(msg: string, branch: string): seq<Argv> {
    [ ["git", "add", "-A"],
      ["git", "commit", "-m", msg],
      ["git", "push", "--set-upstream", "origin", branch] ]
  }

  /**
   * `push`: refuse on branch master; otherwise stage everything, commit with
   * the given message and push to the branch of the same name, stopping at
   * the first failure. The branch is `current_branch` stripped; `ran` lists
   * the commands run after the rev-parse query.
   */
  method Push(msg: string, git: Argv -> CmdResult) returns (ran: seq<Argv>)
    ensures var branch := Strip(CurrentBranch(git));
      && (branch == "master" <==> ran == [])
      && (branch != "master" ==> ran != [] && ran <= PushCommands(msg, branch))
      && (branch != "master" && (forall k :: 0 <= k < |ran| ==> git(ran[k]).ok) ==> ran == PushCommands(msg, branch))
      && (branch != "master" ==> StopsAtFirstFailure(PushCommands(msg, branch), ran, git))
    ensures ran == [] <==> git(RevParseCommand()).ok && Strip(git(RevParseCommand()).output) == "master"
    ensures !git(RevParseCommand()).ok ==> ran != [] && ran <= PushCommands(msg, "")
  {
    var branch := Strip(CurrentBranch(git));
    if !git(RevParseCommand()).ok {
      StripBare("");
      assert branch == "";
    }
    if branch == "master" {
      return [];
    }
    StripTwice(CurrentBranch(git));
    var failure;
    ran, failure := RunUntilFailure(PushCommands(msg, Strip(branch)), git);
  }

  // ---------------------------------------------------------------------
  // The update decision procedure

  /**
   * The command results `update` consults, in the order it asks for them.
   * Each is the reply of git in the directory the process stands in at
   * that moment (`Flow` says which).
   */
  datatype UpdateReplies = UpdateReplies(
    status: CmdResult,
    localLog: CmdResult,
    remoteLog: CmdResult,
    statusAfterPull: CmdResult,
    statusAfterRinse: CmdResult)

  /**
   * What `update` learns from git: clean, logs matching, clean after the
   * pull, clean after the rinse, each as reported where it was asked.
   */
  datatype Facts = Facts(clean: bool, matched: bool, cleanAfterPull: bool, cleanAfterRinse: bool)

  /** The facts the replies establish, by the classifiers above. */
  function Observe(rp: UpdateReplies): (f: Facts)
    ensures f.matched ==> rp.localLog.output == rp.remoteLog.output
  {
    Facts(LocalClean(rp.status), LogsAgree(rp.localLog, rp.remoteLog),
          LocalClean(rp.statusAfterPull), LocalClean(rp.statusAfterRinse))
  }

  /**
   * The outcome of `update` as a decision table over whether the
   * repository is locked and the facts it observes: the result and the
   * events, in order. `update` starts in the mirror; `unlock` and `rinse`
   * both end in the gpack root. With `back` false nothing changes back
   * into the mirror, as the code is written; with `back` true the process
   * returns to the mirror after each of them.
   */
  function Flow(locked: bool, f: Facts, back: bool): (r: (bool, seq<Event>))
    ensures r.1 != [] && r.1[0] == Status(Mirror)
    ensures !r.0 ==> locked
  {
    var after := if back then Mirror else Root;
    var first := [Status(Mirror)];
    if !f.clean && !locked then (true, first)
    else
      var here := if f.clean then Mirror else after;
      var fetched := (if f.clean then first else first + [Unlock, Rinse]) + [Fetch(here), Compare(here)];
      if f.matched || !locked then (true, fetched + (if locked then [Lock] else []))
      else
        var pulled := fetched + [Unlock, Pull(after), Status(after)];
        if f.cleanAfterPull then (true, pulled + [Lock])
        else if f.cleanAfterRinse then (true, pulled + [Rinse, Status(after), Lock])
        else (false, pulled + [Rinse, Status(after)])
  }

  /** `update` as written. */
  function Decide(locked: bool, f: Facts): (r: (bool, seq<Event>))
    ensures r.1 != [] && r.1[0] == Status(Mirror)
    ensures !r.0 ==> locked
  {
    Flow(locked, f, false)
  }

  /** `update` with every git command run in the mirror. */
  function IntendedDecide(locked: bool, f: Facts): (r: (bool, seq<Event>))
    ensures r.1 != [] && r.1[0] == Status(Mirror)
    ensures !r.0 ==> locked
  {
    Flow(locked, f, true)
  }

  /** The position of the first `unlock` or `lock` in a trace, or its length when there is none. */
  function FirstPass(t: seq<Event>): (k: nat)
    ensures k <= |t|
    ensures forall j :: 0 <= j < k ==> t[j] != Unlock && t[j] != Lock
    ensures k < |t| ==> t[k] == Unlock || t[k] == Lock
    ensures k == |t| ==> Unlock !in t && Lock !in t
    decreases |t|
  {
    if t == [] then 0
    else if t[0] == Unlock || t[0] == Lock then 0
    else 1 + FirstPass(t[1..])
  }

  /** Events with no permission pass, then a pass: that pass is the first. */
  lemma {:induction false} FirstPassAfterQuiet(quiet: seq<Event>, e: Event, rest: seq<Event>)
    requires Unlock !in quiet && Lock !in quiet
    requires e == Unlock || e == Lock
    ensures FirstPass(quiet + [e] + rest) == |quiet|
    decreases |quiet|
  {
    if quiet != [] {
      assert quiet[0] in quiet;
      assert (quiet + [e] + rest)[1..] == quiet[1..] + [e] + rest;
      assert forall x :: x in quiet[1..] ==> x in quiet;
      FirstPassAfterQuiet(quiet[1..], e, rest);
    }
  }

  /**
   * `update` as written, when the mirror's permission passes may raise.
   * `finishes` says whether they run to the end; one fact serves every pass
   * on a mirror (`Permissions.FinishedIgnoresAction`). A pass that raises
   * ends `update` and the exception propagates (None): at the unlock before
   * the rinse when the repository is dirty, otherwise after the fetch and
   * the log comparison, at the final lock when the logs agree or at the
   * unlock before the pull when they differ.
   */
  function Attempt(locked: bool, f: Facts, finishes: bool): (r: (Option<bool>, seq<Event>))
    ensures r.1 <= Decide(locked, f).1
    ensures r.0.None? <==> locked && !finishes
    ensures r.0.Some? ==> r.0.value == Decide(locked, f).0 && r.1 == Decide(locked, f).1
    ensures r.0.None? ==> r.1 != [] && (r.1[|r.1| - 1] == Unlock || r.1[|r.1| - 1] == Lock)
  {
    var outcome := Decide(locked, f);
    if finishes || !locked then (Some(outcome.0), outcome.1)
    else if !f.clean then (None, [Status(Mirror), Unlock])
    else (None, [Status(Mirror), Fetch(Mirror), Compare(Mirror)] + [if f.matched then Lock else Unlock])
  }

  /** A raising pass cuts the as-written trace right after its first `unlock` or `lock`, and nowhere else. */
  lemma RaisingPassCutsAtFirstPass(f: Facts)
    ensures FirstPass(Decide(true, f).1) < |Decide(true, f).1|
    ensures Attempt(true, f, false).1 == Decide(true, f).1[..FirstPass(Decide(true, f).1) + 1]
  {
    var t := Decide(true, f).1;
    if !f.clean {
      var rest := t[2..];
      assert t == [Status(Mirror)] + [Unlock] + rest;
      FirstPassAfterQuiet([Status(Mirror)], Unlock, rest);
      assert t[..2] == [Status(Mirror), Unlock];
    } else {
      var quiet := [Status(Mirror), Fetch(Mirror), Compare(Mirror)];
      var e := if f.matched then Lock else Unlock;
      var rest := t[4..];
      assert t == quiet + [e] + rest;
      FirstPassAfterQuiet(quiet, e, rest);
      assert t[..4] == quiet + [e];
    }
  }

  /**
   * `update`: read the ledger once to learn whether the repository is
   * locked, then rinse, fetch, pull and re-lock as the facts demand. The
   * result is None when `update` raises: the ledger file does not exist
   * (opening it raises), or a permission pass raises.
   */
  method Update(directory: string, ledger: LockLedger.LockFile, rp: UpdateReplies, finishes: bool)
    returns (result: Option<bool>, trace: seq<Event>)
    ensures !ledger.present ==> result == None && trace == []
    ensures ledger.present ==>
      var locked := LockLedger.IsLocked(LockLedger.ReadLedger(ledger.text), directory);
      result == Attempt(locked, Observe(rp), finishes).0 && trace == Attempt(locked, Observe(rp), finishes).1
  {
    if !ledger.present {
      return None, [];
    }
    var locked := false;
    if LockLedger.IsLocked(LockLedger.ReadLedger(ledger.text), directory) {
      locked := true;
    }
    result, trace := UpdateFlow(locked, Observe(rp), finishes);
  }

  /**
   * The body of `update` once the lock state is known: the steps it takes,
   * where the process stands for each, and the value it returns, or None
   * when an `unlock` or `lock` raises.
   */
  method UpdateFlow(locked: bool, f: Facts, finishes: bool) returns (result: Option<bool>, trace: seq<Event>)
    ensures result == Attempt(locked, f, finishes).0 && trace == Attempt(locked, f, finishes).1
  {
    var cwd := Mirror;
    trace := [Status(cwd)];
    if !f.clean {
      if locked == false {
        return Some(true), trace;
      }
      trace := trace + [Unlock];
      if !finishes {
        return None, trace;
      }
      cwd := Root;
      trace := trace + [Rinse];
      cwd := Root;
    }
    trace := trace + [Fetch(cwd), Compare(cwd)];
    if !f.matched && locked {
      trace := trace + [Unlock];
      if !finishes {
        return None, trace;
      }
      cwd := Root;
      trace := trace + [Pull(cwd), Status(cwd)];
      if !f.cleanAfterPull {
        trace := trace + [Rinse];
        cwd := Root;
        trace := trace + [Status(cwd)];
        if !f.cleanAfterRinse {
          return Some(false), trace;
        }
      }
    }
    if locked {
      trace := trace + [Lock];
      if !finishes {
        return None, trace;
      }
    }
    result := Some(true);
  }

  /** An unlocked repository with local changes is left alone: True once its status is read, with no effect. */
  lemma UnlockedDirtyLeftAlone(f: Facts)
    requires !f.clean
    ensures Decide(false, f) == (true, [Status(Mirror)])
  {
  }

  /**
   * A locked repository with local changes is unlocked and rinsed before
   * anything is fetched; the fetch and the log comparison then run in the
   * gpack root.
   */
  lemma LockedDirtyRinsedFirst(f: Facts)
    requires !f.clean
    ensures var t := Decide(true, f).1;
      |t| >= 5 && t[..5] == [Status(Mirror), Unlock, Rinse, Fetch(Root), Compare(Root)]
  {
  }

  /** A pull happens exactly when the repository is locked and the logs compared differ. */
  lemma PullExactlyWhenLockedAndLogsDiffer(locked: bool, f: Facts)
    ensures Pull(Root) in Decide(locked, f).1 <==> locked && !f.matched
  {
  }

  /** As written, the pull never runs in the mirror: `unlock` has just moved the process to the gpack root. */
  lemma PullNeverInMirror(locked: bool, f: Facts)
    ensures Pull(Mirror) !in Decide(locked, f).1
    ensures forall e :: e in Decide(locked, f).1 && e.Pull? ==> Status(Root) in Decide(locked, f).1
  {
  }

  /**
   * A clean, locked mirror whose logs differ from the remote's is fetched
   * and compared in the mirror, but pulled and checked in the gpack root:
   * a clean root makes `update` lock it again and return True.
   */
  lemma BehindMirrorPulledInRoot()
    ensures Decide(true, Facts(true, false, true, true))
         == (true, [Status(Mirror), Fetch(Mirror), Compare(Mirror), Unlock, Pull(Root), Status(Root), Lock])
  {
    var fetched := [Status(Mirror)] + [Fetch(Mirror), Compare(Mirror)];
    assert fetched + [Unlock, Pull(Root), Status(Root)] + [Lock]
        == [Status(Mirror), Fetch(Mirror), Compare(Mirror), Unlock, Pull(Root), Status(Root), Lock];
  }

  /** Changing back into the mirror puts every git command of `update` there, the pull included. */
  lemma IntendedRunsInMirror(locked: bool, f: Facts)
    ensures forall e :: e in IntendedDecide(locked, f).1 ==> Where(e) != Some(Root)
    ensures Pull(Mirror) in IntendedDecide(locked, f).1 <==> locked && !f.matched
  {
  }

  /** The correction changes where commands run, not what `update` returns. */
  lemma IntendedSameResult(locked: bool, f: Facts)
    ensures IntendedDecide(locked, f).0 == Decide(locked, f).0
    ensures |IntendedDecide(locked, f).1| == |Decide(locked, f).1|
    ensures forall k :: 0 <= k < |Decide(locked, f).1| && Where(Decide(locked, f).1[k]).None? ==>
      IntendedDecide(locked, f).1[k] == Decide(locked, f).1[k]
  {
  }

  /** An unlocked repository is never unlocked, rinsed, pulled or locked, and `update` returns True. */
  lemma UnlockedNeverTouched(f: Facts, back: bool)
    ensures var t := Flow(false, f, back).1;
      Lock !in t && Rinse !in t && Unlock !in t && Flow(false, f, back).0
    ensures forall e :: e in Flow(false, f, back).1 ==> !e.Pull?
  {
  }

  /** False is returned on one path only: locked, logs differing, dirty after the pull and still dirty after the rinse. */
  lemma FalseOnlyWhenRinseFails(locked: bool, f: Facts, back: bool)
    ensures !Flow(locked, f, back).0 <==> locked && !f.matched && !f.cleanAfterPull && !f.cleanAfterRinse
  {
  }

  /**
   * Every True result on a locked repository comes right after a lock; a
   * False result leaves the repository as last unlocked.
   */
  lemma LockedEndsLocked(f: Facts, back: bool)
    ensures var outcome := Flow(true, f, back);
      var t := outcome.1;
      (outcome.0 <==> t[|t| - 1] == Lock) && (!outcome.0 ==> Lock !in t)
  {
  }
}
