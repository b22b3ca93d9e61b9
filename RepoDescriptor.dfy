/**
 * The repository descriptor: one entry of the repository list, with the
 * mirror's absolute directory, its parent and its name derived from the
 * configured local directory.
 */
module RepoDescriptor {
  import opened Options
  import opened PosixPath
  import GitOps
  import LockLedger

  /** One entry of the repository list; `lock` is None when the key is absent. */
  datatype RepoData = RepoData(url: string, localDir: string, branch: string, lock: Option<bool>)

  /** The directory joined onto the working directory keeps the configured name and stays absolute. */
  lemma JoinedDirectory(cwd: string, localDir: string)
    ensures IsAbs(cwd) ==> IsAbs(Join(cwd, localDir))
    ensures Basename(Join(cwd, localDir)) == Basename(localDir)
    ensures '/' !in Basename(localDir)
  {
    if IsAbs(cwd) {
      JoinKeepsAbsolute(cwd, localDir);
    }
    JoinBasename(cwd, localDir);
    BasenameHasNoSlash(localDir);
  }

  class Repo {
    var url: string
    var directory: string
    var dirname: string
    var branch: string
    var lock: bool
    var name: string
    var tag: Option<string>

    /** `dirname` and `name` are the parent and the last segment of `directory`. */
    predicate Valid()
      reads this
    {
      dirname == Dirname(directory) && name == Basename(directory)
    }

    /** `Repo(data)` created in the working directory `cwd`. */
    constructor (data: RepoData, cwd: string)
      ensures Valid()
      ensures url == data.url && branch == data.branch && tag.None?
      ensures directory == Join(cwd, data.localDir)
      ensures IsAbs(cwd) ==> IsAbs(directory)
      ensures name == Basename(data.localDir) && '/' !in name
      ensures data.lock.None? ==> lock
      ensures data.lock.Some? ==> lock == data.lock.value
    {
      var localDir := data.localDir;
      var joined := Join(cwd, localDir);
      JoinedDirectory(cwd, localDir);
      url := data.url;
      directory := joined;
      dirname := Dirname(joined);
      branch := data.branch;
      if data.lock.Some? {
        lock := data.lock.value;
      } else {
        lock := true;
      }
      name := Basename(joined);
      tag := None;
    }

    /**
     * `update`: hands the result of the update procedure back unchanged;
     * None when it raises. `finishes` says whether this mirror's permission
     * passes run to the end.
     */
    method Update(ledger: LockLedger.LockFile, rp: GitOps.UpdateReplies, finishes: bool)
      returns (result: Option<bool>, trace: seq<GitOps.Event>)
      ensures !ledger.present ==> result == None && trace == []
      ensures ledger.present ==>
        var locked := LockLedger.IsLocked(LockLedger.ReadLedger(ledger.text), directory);
        result == GitOps.Attempt(locked, GitOps.Observe(rp), finishes).0
        && trace == GitOps.Attempt(locked, GitOps.Observe(rp), finishes).1
    {
      result, trace := GitOps.Update(directory, ledger, rp, finishes);
    }
  }
}
