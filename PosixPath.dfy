/**
 * The three `os.path` functions the repository descriptor uses, with
 * Python's POSIX semantics (`posixpath.join`, `dirname`, `basename`).
 */
module PosixPath {

  /** `os.path.isabs`: the path starts with a slash. */
  predicate IsAbs(p: string) {
    p != [] && p[0] == '/'
  }

  /** `os.path.join(a, b)`: an absolute `b` replaces `a`; otherwise one slash separates them. */
  function Join(a: string, b: string): string {
    if IsAbs(b) then b
    else if a == [] || a[|a| - 1] == '/' then a + b
    else a + "/" + b
  }

  /** `p.rfind("/")`: the index of the last slash, or -1. */
  function RFindSlash(p: string): (i: int)
    ensures -1 <= i < |p|
    ensures i >= 0 ==> p[i] == '/'
    ensures forall k :: i < k < |p| ==> p[k] != '/'
  {
    if p == [] then -1
    else if p[|p| - 1] == '/' then |p| - 1
    else RFindSlash(p[..|p| - 1])
  }

  /** `os.path.basename`: everything after the last slash. */
  function Basename(p: string): string {
    p[RFindSlash(p) + 1..]
  }

  predicate AllSlashes(s: string) {
    forall k :: 0 <= k < |s| ==> s[k] == '/'
  }

  /** `s.rstrip("/")`. */
  function RStripSlashes(s: string): (r: string)
    ensures |r| <= |s| && r == s[..|r|]
    ensures r == [] || r[|r| - 1] != '/'
  {
    if s != [] && s[|s| - 1] == '/' then RStripSlashes(s[..|s| - 1]) else s
  }

  /** `os.path.dirname`: everything up to the last slash, trailing slashes removed unless it is all slashes. */
  function Dirname(p: string): string {
    var head := p[..RFindSlash(p) + 1];
    if head != [] && !AllSlashes(head) then RStripSlashes(head) else head
  }

  /** The last slash of `p` stands alone after a non-slash character, as in "/srv/mirrors/lib". */
  predicate SplitsCleanly(p: string) {
    var i := RFindSlash(p);
    i >= 1 && p[i - 1] != '/'
  }

  lemma BasenameHasNoSlash(p: string)
    ensures '/' !in Basename(p)
  {
    var i := RFindSlash(p);
    forall k | 0 <= k < |Basename(p)|
      ensures Basename(p)[k] != '/'
    {
      assert Basename(p)[k] == p[i + 1 + k];
    }
  }

  /** Joining onto an absolute directory gives an absolute path. */
  lemma JoinKeepsAbsolute(a: string, b: string)
    requires IsAbs(a)
    ensures IsAbs(Join(a, b))
  {
  }

  lemma {:induction false} RFindSlashAppend(x: string, y: string)
    ensures '/' in y ==> RFindSlash(x + y) == |x| + RFindSlash(y)
    ensures '/' !in y ==> RFindSlash(x + y) == RFindSlash(x)
    decreases |y|
  {
    if y != [] {
      var xy := x + y;
      assert xy[..|xy| - 1] == x + y[..|y| - 1];
      RFindSlashAppend(x, y[..|y| - 1]);
      if y[|y| - 1] != '/' {
        assert '/' in y <==> '/' in y[..|y| - 1] by {
          if '/' in y {
            var k :| 0 <= k < |y| && y[k] == '/';
            assert y[..|y| - 1][k] == '/';
          }
        }
      }
    } else {
      assert x + y == x;
    }
  }

  /** A segment appended after a slash (or onto nothing) keeps its own last segment. */
  lemma BasenameAfterSlash(front: string, b: string)
    requires front == [] || front[|front| - 1] == '/'
    ensures Basename(front + b) == Basename(b)
  {
    RFindSlashAppend(front, b);
    var j := RFindSlash(b);
    if '/' !in b {
      assert j == -1;
      assert RFindSlash(front) == |front| - 1;
      assert (front + b)[|front|..] == b;
    } else {
      assert (front + b)[|front| + j + 1..] == b[j + 1..];
    }
  }

  /** The last segment of a joined path is the last segment of what was joined on, whatever the directory. */
  lemma JoinBasename(a: string, b: string)
    ensures Basename(Join(a, b)) == Basename(b)
  {
    if !IsAbs(b) {
      if a == [] || a[|a| - 1] == '/' {
        BasenameAfterSlash(a, b);
      } else {
        assert Join(a, b) == (a + "/") + b;
        BasenameAfterSlash(a + "/", b);
      }
    }
  }

  /**
   * Rebuilding a path from its parent and last segment with one slash gives
   * the path back, provided its last slash follows a non-slash character.
   */
  lemma DirnameBasenameRebuild(p: string)
    requires SplitsCleanly(p)
    ensures Dirname(p) + "/" + Basename(p) == p
  {
    var i := RFindSlash(p);
    var head := p[..i + 1];
    assert head[i - 1] != '/';
    assert !AllSlashes(head);
    assert head[..|head| - 1] == p[..i];
    assert RStripSlashes(head) == RStripSlashes(p[..i]) == p[..i];
    assert p == p[..i] + "/" + p[i + 1..];
  }
}
