/**
 * The lock ledger `.gpacklock`: one line per mirror directory that is
 * currently unlocked (writable). `lock` and `unlock` rewrite the ledger
 * and change the mirror's permission bits; `checkLock` creates the file.
 */
module LockLedger {
  import opened PyText
  import Permissions

  // ---------------------------------------------------------------------
  // Ledger text

  function StripAll(lines: seq<string>): (r: seq<string>)
    ensures |r| == |lines|
    ensures forall k :: 0 <= k < |r| ==> r[k] == Strip(lines[k])
  {
    if lines == [] then [] else [Strip(lines[0])] + StripAll(lines[1..])
  }

  /**
   * `[line.strip() for line in f.readlines()]` on the ledger's text. Every
   * entry it yields would read back as itself if written out again. What
   * `for line in locked: f.write(line + "\n")` leaves in an emptied file
   * is `Lines(locked)`.
   */
  function ReadLedger(text: string): (entries: seq<string>)
    ensures AllStorable(entries)
  {
    var lines := ReadLines(Translate(text));
    ReadLinesShape(Translate(text));
    assert forall k :: 0 <= k < |lines| ==> '\r' !in lines[k] by {
      forall k | 0 <= k < |lines| ensures '\r' !in lines[k] {
        ReadLinesNoCarriageReturn(text, k);
      }
    }
    LinesStripToStorable(lines);
    StripAll(lines)
  }

  /** A directory absent from the ledger is locked; one listed is unlocked. */
  predicate IsLocked(entries: seq<string>, d: string) {
    d !in entries
  }

  /** An entry that reads back as itself: no surrounding whitespace, no line break. */
  predicate Storable(e: string) {
    Bare(e) && '\n' !in e && '\r' !in e
  }

  predicate AllStorable(entries: seq<string>) {
    forall k :: 0 <= k < |entries| ==> Storable(entries[k])
  }

  lemma {:induction false} ReadWrittenLines(entries: seq<string>)
    requires AllStorable(entries)
    ensures StripAll(ReadLines(Lines(entries))) == entries
    decreases |entries|
  {
    if entries != [] {
      var e := entries[0];
      ReadLinesCons(e, Lines(entries[1..]));
      assert Lines(entries) == e + "\n" + Lines(entries[1..]);
      ReadWrittenLines(entries[1..]);
      StripDropsTrailingSpace(e, '\n');
      StripBare(e);
      assert StripAll(ReadLines(Lines(entries)))[1..] == StripAll(ReadLines(Lines(entries[1..])));
    }
  }

  /** Writing storable entries and reading them back gives the same entries, in order. */
  lemma LedgerRoundTrip(entries: seq<string>)
    requires AllStorable(entries)
    ensures ReadLedger(Lines(entries)) == entries
  {
    LinesHaveNoCarriageReturn(entries);
    TranslateNoCarriageReturn(Lines(entries));
    ReadWrittenLines(entries);
  }

  lemma StrippedLineIsStorable(line: string)
    requires '\r' !in line
    requires forall j :: 0 <= j < |line| - 1 ==> line[j] != '\n'
    ensures Storable(Strip(line))
  {
    var lo, hi := StripIsBareSlice(line);
    var r := Strip(line);
    forall j | 0 <= j < |r| ensures r[j] != '\n' && r[j] != '\r' {
      assert r[j] == line[lo + j];
      if lo + j == |line| - 1 {
        assert j == |r| - 1;
      }
    }
  }

  /** A line `readlines` yields from translated text has no carriage return. */
  lemma ReadLinesNoCarriageReturn(text: string, k: nat)
    requires k < |ReadLines(Translate(text))|
    ensures '\r' !in ReadLines(Translate(text))[k]
  {
    ReadLinesShape(Translate(text));
    var line := ReadLines(Translate(text))[k];
    forall c | c in line ensures c != '\r' {
      assert c in Translate(text);
    }
  }

  /** Lines whose only newline is the last character strip to storable entries. */
  lemma LinesStripToStorable(lines: seq<string>)
    requires forall k :: 0 <= k < |lines| ==> '\r' !in lines[k]
    requires forall k, j :: 0 <= k < |lines| && 0 <= j < |lines[k]| - 1 ==> lines[k][j] != '\n'
    ensures AllStorable(StripAll(lines))
  {
    forall k | 0 <= k < |lines| ensures Storable(Strip(lines[k])) {
      StrippedLineIsStorable(lines[k]);
    }
  }

  /** `[line for line in locked if line != directory]`. */
  function Without(entries: seq<string>, d: string): (r: seq<string>)
    ensures forall x :: x in r <==> x in entries && x != d
    ensures forall x :: x != d ==> multiset(r)[x] == multiset(entries)[x]
    ensures d !in r
    ensures |entries| == 1 ==> r == (if entries[0] == d then [] else entries)
  {
    if entries == [] then []
    else
      assert entries == [entries[0]] + entries[1..];
      (if entries[0] == d then [] else [entries[0]]) + Without(entries[1..], d)
  }

  lemma {:induction false} WithoutAbsent(entries: seq<string>, d: string)
    requires d !in entries
    ensures Without(entries, d) == entries
    decreases |entries|
  {
    if entries != [] {
      WithoutAbsent(entries[1..], d);
      assert entries == [entries[0]] + entries[1..];
    }
  }

  /**
   * The filter works entry by entry: removing `d` from a concatenation
   * removes it from each part, so the entries kept stay in their order.
   */
  lemma {:induction false} WithoutConcat(a: seq<string>, b: seq<string>, d: string)
    ensures Without(a + b, d) == Without(a, d) + Without(b, d)
    decreases |a|
  {
    if a == [] {
      assert a + b == b;
    } else {
      var head: seq<string> := if a[0] == d then [] else [a[0]];
      assert (a + b)[0] == a[0] && (a + b)[1..] == a[1..] + b;
      assert Without(a + b, d) == head + Without(a[1..] + b, d);
      assert Without(a, d) == head + Without(a[1..], d);
      WithoutConcat(a[1..], b, d);
    }
  }

  lemma WithoutStorable(entries: seq<string>, d: string)
    requires AllStorable(entries)
    ensures AllStorable(Without(entries, d))
  {
    var r := Without(entries, d);
    forall k | 0 <= k < |r| ensures Storable(r[k]) {
      assert r[k] in entries;
    }
  }

  // ---------------------------------------------------------------------
  // What `lock` and `unlock` leave in the ledger

  /** The texts `lock` and `unlock` can write read back as the entries they wrote. */
  lemma WrittenReadsBack(entries: seq<string>, d: string)
    ensures ReadLedger("") == []
    ensures AllStorable(entries) ==>
      ReadLedger(Lines(entries)) == entries && ReadLedger(Lines(Without(entries, d))) == Without(entries, d)
    ensures AllStorable(entries) && Storable(d) ==> ReadLedger(Lines(entries + [d])) == entries + [d]
  {
    if AllStorable(entries) {
      LedgerRoundTrip(entries);
      WithoutStorable(entries, d);
      LedgerRoundTrip(Without(entries, d));
      if Storable(d) {
        assert AllStorable(entries + [d]);
        LedgerRoundTrip(entries + [d]);
      }
    }
  }

  /**
   * The ledger's text after `lock`, given the entries read, whether the
   * directory exists and whether the permission pass finished. The file is
   * emptied before the branches, so every path that returns early or
   * raises leaves it empty unless it wrote first. Whatever the branch, the
   * directory is not listed afterwards and no entry is added.
   */
  function LockedText(entries: seq<string>, d: string, isDir: bool, finished: bool): (t: string)
    ensures AllStorable(entries) ==> d !in ReadLedger(t) && forall x :: x in ReadLedger(t) ==> x in entries
    ensures isDir && !finished ==> ReadLedger(t) == []
  {
    WrittenReadsBack(entries, d);
    if d in entries then
      if !isDir then Lines(Without(entries, d))
      else if finished then Lines(Without(entries, d))
      else ""
    else
      if !isDir then ""
      else if finished then Lines(entries)
      else ""
  }

  /**
   * The ledger's text after `unlock` on an existing directory. A finished
   * pass lists the directory after the entries already there; a pass that
   * raised leaves the emptied file.
   */
  function UnlockedText(entries: seq<string>, d: string, finished: bool): (t: string)
    ensures !finished ==> ReadLedger(t) == []
    ensures finished && AllStorable(entries) && Storable(d) ==> d in ReadLedger(t) && entries <= ReadLedger(t)
  {
    WrittenReadsBack(entries, d);
    if !finished then ""
    else if d in entries then Lines(entries)
    else Lines(entries + [d])
  }

  class LockFile {
    /** `os.path.isfile(".gpacklock")` in the workspace root. */
    var present: bool
    /** The file's contents, when present. */
    var text: string

    constructor (present: bool, text: string)
      ensures this.present == present && this.text == text
    {
      this.present := present;
      this.text := text;
    }

    /** `checkLock`: create an empty ledger when there is none. */
    method CheckLock()
      modifies this
      ensures present
      ensures text == if old(present) then old(text) else ""
    {
      if !present {
        present := true;
        text := "";
      }
    }

    /** Append each entry and a newline to the file. */
    method WriteEntries(entries: seq<string>)
      modifies this`text
      ensures text == old(text) + Lines(entries)
    {
      var i := 0;
      while i < |entries|
        invariant 0 <= i <= |entries|
        invariant text == old(text) + Lines(entries[..i])
      {
        LinesSnoc(entries[..i], entries[i]);
        assert entries[..i + 1] == entries[..i] + [entries[i]];
        text := text + entries[i] + "\n";
        i := i + 1;
      }
      assert entries[..i] == entries;
    }

    /**
     * `lock`: drop the directory from the ledger and remove owner write
     * permission throughout the mirror. `completed` is false when the
     * permission pass raised.
     */
    method Lock(directory: string, mirror: Permissions.Mirror) returns (completed: bool)
      modifies this, mirror`modes
      ensures present
      ensures var entries := ReadLedger(old(if present then text else ""));
        var perms := Permissions.PermsOutcome(old(mirror.modes), mirror.denied, mirror.layout, Permissions.Lock);
        && text == LockedText(entries, directory, mirror.present, perms.finished)
        && mirror.modes == (if mirror.present then perms.modes else old(mirror.modes))
        && completed == (!mirror.present || perms.finished)
    {
      CheckLock();
      var locked := ReadLedger(text);
      text := "";
      if directory in locked {
        if !mirror.present {
          locked := Without(locked, directory);
          WriteEntries(locked);
          return true;
        }
        locked := Without(locked, directory);
        completed := Permissions.ApplyPerms(mirror, Permissions.Lock);
        if !completed {
          return;
        }
        WriteEntries(locked);
      } else {
        if !mirror.present {
          return true;
        }
        completed := Permissions.ApplyPerms(mirror, Permissions.Lock);
        if !completed {
          return;
        }
        WriteEntries(locked);
      }
    }

    /**
     * `unlock`: record the directory in the ledger and grant owner write
     * permission throughout the mirror. A missing directory changes
     * nothing beyond creating the ledger.
     */
    method Unlock(directory: string, mirror: Permissions.Mirror) returns (completed: bool)
      modifies this, mirror`modes
      ensures present
      ensures !mirror.present ==>
        text == old(if present then text else "") && mirror.modes == old(mirror.modes) && completed
      ensures mirror.present ==>
        var entries := ReadLedger(old(if present then text else ""));
        var perms := Permissions.PermsOutcome(old(mirror.modes), mirror.denied, mirror.layout, Permissions.Unlock);
        && text == UnlockedText(entries, directory, perms.finished)
        && mirror.modes == perms.modes
        && completed == perms.finished
    {
      CheckLock();
      if !mirror.present {
        return true;
      }
      var locked := ReadLedger(text);
      text := "";
      if directory in locked {
        completed := Permissions.ApplyPerms(mirror, Permissions.Unlock);
        if !completed {
          return;
        }
        WriteEntries(locked);
      } else {
        locked := locked + [directory];
        completed := Permissions.ApplyPerms(mirror, Permissions.Unlock);
        if !completed {
          return;
        }
        WriteEntries(locked);
      }
    }
  }

  // ---------------------------------------------------------------------
  // Properties of the ledger

  /** After a completed lock of an existing directory the ledger no longer lists it and lists every other entry as before. */
  lemma LockForgets(text: string, d: string)
    ensures var after := ReadLedger(LockedText(ReadLedger(text), d, true, true));
      after == Without(ReadLedger(text), d) && d !in after
  {
    var entries := ReadLedger(text);
    WithoutStorable(entries, d);
    if d !in entries {
      WithoutAbsent(entries, d);
    }
    LedgerRoundTrip(Without(entries, d));
  }

  /** Locking an existing directory twice leaves the same ledger as locking it once. */
  lemma LockTwice(text: string, d: string)
    ensures var once := LockedText(ReadLedger(text), d, true, true);
      LockedText(ReadLedger(once), d, true, true) == once
  {
    var entries := ReadLedger(text);
    var w := Without(entries, d);
    if d !in entries {
      WithoutAbsent(entries, d);
    }
    assert LockedText(entries, d, true, true) == Lines(w);
    WithoutStorable(entries, d);
    LedgerRoundTrip(w);
    assert LockedText(w, d, true, true) == Lines(w);
  }

  /** After a completed unlock the ledger lists the directory, and every earlier entry is kept in order. */
  lemma UnlockRecords(text: string, d: string)
    requires Storable(d)
    ensures var entries := ReadLedger(text);
      var after := ReadLedger(UnlockedText(entries, d, true));
      d in after && entries <= after && |after| <= |entries| + 1
  {
    var entries := ReadLedger(text);
    if d in entries {
      LedgerRoundTrip(entries);
    } else {
      assert AllStorable(entries + [d]);
      LedgerRoundTrip(entries + [d]);
    }
  }

  /** Unlocking twice leaves the same ledger as unlocking once. */
  lemma UnlockTwice(text: string, d: string)
    requires Storable(d)
    ensures var once := UnlockedText(ReadLedger(text), d, true);
      UnlockedText(ReadLedger(once), d, true) == once
  {
    var entries := ReadLedger(text);
    var written := if d in entries then entries else entries + [d];
    assert AllStorable(written);
    LedgerRoundTrip(written);
  }

  // ---------------------------------------------------------------------
  // The emptied ledger

  /**
   * As written, `lock` empties the file before it looks at the directory:
   * locking a directory that is neither listed nor on disk returns with
   * the file still empty, and every other unlocked mirror is forgotten.
   */
  lemma LockOfMissingDirectoryWipesLedger()
    ensures ReadLedger("other\n") == ["other"]
    ensures ReadLedger(LockedText(ReadLedger("other\n"), "gone", false, true)) == []
  {
    ReadsOther();
    var t := LockedText(["other"], "gone", false, true);
    assert "gone" !in ["other"];
    assert t == "";
    WrittenReadsBack([], "gone");
  }

  /** A one-line ledger reads as its one entry. */
  lemma ReadsOther()
    ensures ReadLedger("other\n") == ["other"]
  {
    LedgerRoundTrip(["other"]);
    assert Lines(["other"]) == "other\n";
  }

  /**
   * As written, a permission pass that raises (a directory that vanished or
   * refuses chmod) leaves the emptied file behind, for `lock` and `unlock`.
   */
  lemma FailedPermissionPassWipesLedger()
    ensures ReadLedger(LockedText(["other", "repo"], "repo", true, false)) == []
    ensures ReadLedger(UnlockedText(["other"], "repo", false)) == []
  {
  }

  /**
   * The evident intent for `lock`: the directory leaves the ledger when it
   * is missing or its permissions were all removed; nothing else changes.
   */
  function IntendedLockedText(entries: seq<string>, d: string, isDir: bool, finished: bool): string {
    if isDir && !finished then Lines(entries) else Lines(Without(entries, d))
  }

  /** The evident intent for `unlock` on an existing directory: it is recorded even if the pass stopped part-way. */
  function IntendedUnlockedText(entries: seq<string>, d: string): string {
    if d in entries then Lines(entries) else Lines(entries + [d])
  }

  /** Under the intended behaviour, locking or unlocking one directory never adds or drops another ledger entry. */
  lemma IntendedKeepsOthers(text: string, d: string, isDir: bool, finished: bool)
    requires Storable(d)
    ensures var entries := ReadLedger(text);
      forall x :: x != d ==>
        (x in ReadLedger(IntendedLockedText(entries, d, isDir, finished)) <==> x in entries) &&
        (x in ReadLedger(IntendedUnlockedText(entries, d)) <==> x in entries)
  {
    var entries := ReadLedger(text);
    WithoutStorable(entries, d);
    LedgerRoundTrip(entries);
    LedgerRoundTrip(Without(entries, d));
    assert AllStorable(entries + [d]);
    LedgerRoundTrip(entries + [d]);
  }

  /** Where the directory exists and the pass finishes, the code as written already does what was intended. */
  lemma IntendedAgreesWhenFinished(entries: seq<string>, d: string)
    ensures LockedText(entries, d, true, true) == IntendedLockedText(entries, d, true, true)
    ensures UnlockedText(entries, d, true) == IntendedUnlockedText(entries, d)
  {
    if d !in entries {
      WithoutAbsent(entries, d);
    }
  }
}
