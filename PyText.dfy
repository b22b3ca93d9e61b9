/**
 * The Python string behaviour the lock-and-sync engine relies on:
 * `str.isspace` and `str.strip`, the `in` test on strings, `str.replace`,
 * `str.split("\n")`, and what `readlines()` returns for a file opened in
 * text mode (universal newlines). Strings are sequences of code points.
 */
module PyText {

  /** Python's `str.isspace` on a single code point. */
  predicate IsSpace(c: char) {
    || ('\t' <= c <= '\r')                 // \t \n \v \f \r
    || ('\U{1c}' <= c <= '\U{1f}') || c == ' '
    || c == '\U{85}' || c == '\U{a0}' || c == '\U{1680}'
    || ('\U{2000}' <= c <= '\U{200a}')
    || c == '\U{2028}' || c == '\U{2029}' || c == '\U{202f}'
    || c == '\U{205f}' || c == '\U{3000}'
  }

  /** A string that `strip()` leaves alone: no whitespace at either end. */
  predicate Bare(s: string) {
    s == [] || (!IsSpace(s[0]) && !IsSpace(s[|s| - 1]))
  }

  /** `s.rstrip()`: the longest prefix of `s` that does not end in whitespace. */
  function RStrip(s: string): (r: string)
    ensures |r| <= |s| && r == s[..|r|]
    ensures r == [] || !IsSpace(r[|r| - 1])
    ensures forall k :: |r| <= k < |s| ==> IsSpace(s[k])
  {
    if s != [] && IsSpace(s[|s| - 1]) then RStrip(s[..|s| - 1]) else s
  }

  /** `s.lstrip()`: the longest suffix of `s` that does not start with whitespace. */
  function LStrip(s: string): (r: string)
    ensures |r| <= |s| && r == s[|s| - |r|..]
    ensures r == [] || !IsSpace(r[0])
    ensures forall k :: 0 <= k < |s| - |r| ==> IsSpace(s[k])
  {
    if s != [] && IsSpace(s[0]) then LStrip(s[1..]) else s
  }

  /** `s.strip()`. */
  function Strip(s: string): string {
    LStrip(RStrip(s))
  }

  /** What `strip()` returns: a bare slice `s[lo..hi]` of `s`, with only whitespace cut off around it. */
  lemma StripIsBareSlice(s: string) returns (lo: nat, hi: nat)
    ensures lo <= hi <= |s| && Strip(s) == s[lo..hi]
    ensures Bare(Strip(s))
    ensures forall k :: 0 <= k < lo || hi <= k < |s| ==> IsSpace(s[k])
  {
    var m := RStrip(s);
    var r := LStrip(m);
    hi := |m|;
    lo := |m| - |r|;
    assert r == m[lo..] == s[..hi][lo..];
  }

  lemma StripBare(s: string)
    requires Bare(s)
    ensures Strip(s) == s
  {
  }

  /** `strip()` is idempotent. */
  lemma StripTwice(s: string)
    ensures Strip(Strip(s)) == Strip(s)
  {
    var lo, hi := StripIsBareSlice(s);
    StripBare(Strip(s));
  }

  /** Trailing whitespace, such as the newline `readlines()` keeps, does not survive `strip()`. */
  lemma StripDropsTrailingSpace(s: string, w: char)
    requires IsSpace(w)
    ensures Strip(s + [w]) == Strip(s)
  {
    assert (s + [w])[..|s|] == s;
  }

  /** Python's `pat in s` for strings. */
  predicate Contains(s: string, pat: string)
    decreases |s|
  {
    pat <= s || (s != [] && Contains(s[1..], pat))
  }

  lemma {:induction false} ContainsLength(s: string, pat: string)
    requires Contains(s, pat)
    ensures |pat| <= |s|
    decreases |s|
  {
    if !(pat <= s) {
      ContainsLength(s[1..], pat);
    }
  }

  /** Text embedded anywhere in `s` is found by `in`. */
  lemma {:induction false} ContainsEmbedded(a: string, pat: string, b: string)
    ensures Contains(a + pat + b, pat)
    decreases |a|
  {
    if a != [] {
      ContainsEmbedded(a[1..], pat, b);
      assert (a + pat + b)[1..] == a[1..] + pat + b;
    }
  }

  /** `pat in s` finds an occurrence at some index. */
  lemma {:induction false} ContainsAt(s: string, pat: string) returns (i: nat)
    requires Contains(s, pat)
    ensures i + |pat| <= |s| && s[i..i + |pat|] == pat
    decreases |s|
  {
    if pat <= s {
      i := 0;
    } else {
      var j := ContainsAt(s[1..], pat);
      i := j + 1;
      assert s[1..][j..j + |pat|] == s[i..i + |pat|];
    }
  }

  /** An occurrence at any index is found by `pat in s`. */
  lemma {:induction false} AtContains(s: string, pat: string, i: nat)
    requires i + |pat| <= |s| && s[i..i + |pat|] == pat
    ensures Contains(s, pat)
    decreases i
  {
    if i == 0 {
      assert pat == s[..|pat|];
    } else {
      assert s[1..][i - 1..i - 1 + |pat|] == s[i..i + |pat|];
      AtContains(s[1..], pat, i - 1);
    }
  }

  /** A slice of a string that does not contain `pat` does not contain it either. */
  lemma NotContainsSlice(s: string, lo: nat, hi: nat, pat: string)
    requires lo <= hi <= |s|
    requires !Contains(s, pat)
    ensures !Contains(s[lo..hi], pat)
  {
    NotContainsFrom(s, lo, pat);
    ContainsInPrefix(s[lo..], hi - lo, pat);
    assert s[lo..][..hi - lo] == s[lo..hi];
  }

  lemma {:induction false} ContainsInPrefix(t: string, k: nat, pat: string)
    requires k <= |t|
    ensures Contains(t[..k], pat) ==> Contains(t, pat)
    decreases k
  {
    if k > 0 {
      ContainsInPrefix(t[1..], k - 1, pat);
      assert t[..k][1..] == t[1..][..k - 1];
    }
  }

  lemma {:induction false} NotContainsFrom(s: string, lo: nat, pat: string)
    requires lo <= |s|
    requires !Contains(s, pat)
    ensures !Contains(s[lo..], pat)
    decreases lo
  {
    if lo > 0 {
      NotContainsFrom(s[1..], lo - 1, pat);
      assert s[1..][lo - 1..] == s[lo..];
    }
  }

  /** A prefix test on non-empty strings is a first-letter test and a prefix test on the tails. */
  lemma PrefixCons(w: string, s: string)
    requires w != [] && s != []
    ensures w <= s <==> w[0] == s[0] && w[1..] <= s[1..]
  {
    if w[0] == s[0] && w[1..] <= s[1..] {
      assert w == [s[0]] + w[1..];
      assert s == [s[0]] + s[1..];
    }
  }

  /** A prefix that cannot start with `pat[0]` hides no occurrence of `pat`. */
  lemma {:induction false} ContainsAfterForeignPrefix(front: string, rest: string, pat: string)
    requires pat != [] && pat[0] !in front
    requires !Contains(rest, pat)
    ensures !Contains(front + rest, pat)
    decreases |front|
  {
    if front != [] {
      assert (front + rest)[1..] == front[1..] + rest;
      ContainsAfterForeignPrefix(front[1..], rest, pat);
      assert (front + rest)[0] == front[0];
    } else {
      assert front + rest == rest;
    }
  }

  /** `s.replace(pat, rep)`: left to right, non-overlapping. */
  function Replace(s: string, pat: string, rep: string): string
    requires pat != []
    decreases |s|
  {
    if |s| < |pat| then s
    else if pat <= s then rep + Replace(s[|pat|..], pat, rep)
    else [s[0]] + Replace(s[1..], pat, rep)
  }

  /** A prefix of the replaced text free of `rep[0]` was already a prefix of the original. */
  lemma {:induction false} ReplacePrefix(s: string, pat: string, rep: string, w: string)
    requires pat != [] && rep != []
    requires rep[0] !in w
    ensures w <= Replace(s, pat, rep) ==> w <= s
    decreases |s|
  {
    var r := Replace(s, pat, rep);
    if |s| < |pat| || w == [] {
    } else if pat <= s {
      assert r[0] == rep[0] != w[0];
    } else {
      var tail := Replace(s[1..], pat, rep);
      assert r == [s[0]] + tail && r[1..] == tail;
      ReplacePrefix(s[1..], pat, rep, w[1..]);
      PrefixCons(w, r);
      PrefixCons(w, s);
    }
  }

  /**
   * When `pat` and `rep` share neither first letter, `replace` leaves no
   * occurrence of `pat` behind (this holds for "error" and "fatal" against "gpack").
   */
  lemma {:induction false} ReplaceRemovesAll(s: string, pat: string, rep: string)
    requires pat != [] && rep != []
    requires pat[0] !in rep && rep[0] !in pat
    ensures !Contains(Replace(s, pat, rep), pat)
    decreases |s|
  {
    var r := Replace(s, pat, rep);
    if |s| < |pat| {
      if Contains(s, pat) { ContainsLength(s, pat); }
    } else if pat <= s {
      ReplaceRemovesAll(s[|pat|..], pat, rep);
      ContainsAfterForeignPrefix(rep, Replace(s[|pat|..], pat, rep), pat);
    } else {
      var tail := Replace(s[1..], pat, rep);
      ReplaceRemovesAll(s[1..], pat, rep);
      assert r == [s[0]] + tail && r[1..] == tail;
      ReplacePrefix(s[1..], pat, rep, pat[1..]);
      PrefixCons(pat, r);
      PrefixCons(pat, s);
    }
  }

  /** `replace` does not create an occurrence of `q` when `q` and `rep` share neither first letter. */
  lemma {:induction false} ReplaceKeepsAbsence(s: string, pat: string, rep: string, q: string)
    requires pat != [] && rep != [] && q != []
    requires q[0] !in rep && rep[0] !in q
    requires !Contains(s, q)
    ensures !Contains(Replace(s, pat, rep), q)
    decreases |s|
  {
    var r := Replace(s, pat, rep);
    if |s| < |pat| {
    } else if pat <= s {
      NotContainsFrom(s, |pat|, q);
      ReplaceKeepsAbsence(s[|pat|..], pat, rep, q);
      ContainsAfterForeignPrefix(rep, Replace(s[|pat|..], pat, rep), q);
    } else {
      var tail := Replace(s[1..], pat, rep);
      NotContainsFrom(s, 1, q);
      ReplaceKeepsAbsence(s[1..], pat, rep, q);
      assert r == [s[0]] + tail && r[1..] == tail;
      ReplacePrefix(s[1..], pat, rep, q[1..]);
      PrefixCons(q, r);
      PrefixCons(q, s);
    }
  }

  /** Text without the pattern is returned unchanged. */
  lemma {:induction false} ReplaceAbsent(s: string, pat: string, rep: string)
    requires pat != []
    requires !Contains(s, pat)
    ensures Replace(s, pat, rep) == s
    decreases |s|
  {
    if |s| >= |pat| {
      ReplaceAbsent(s[1..], pat, rep);
    }
  }

  /** `s.split("\n")`: the pieces between newlines, always at least one. */
  function SplitLines(s: string): (r: seq<string>)
    ensures |r| >= 1
    ensures forall k :: 0 <= k < |r| ==> '\n' !in r[k]
  {
    if s == [] then [""]
    else if s[0] == '\n' then [""] + SplitLines(s[1..])
    else var rest := SplitLines(s[1..]); [[s[0]] + rest[0]] + rest[1..]
  }

  /** One line of text terminated by a newline, as `f.write(line + "\n")` produces. */
  function Lines(lines: seq<string>): (r: string)
  {
    if lines == [] then "" else lines[0] + "\n" + Lines(lines[1..])
  }

  /** Writing one more line appends it, newline-terminated, to what was written. */
  lemma {:induction false} LinesSnoc(lines: seq<string>, x: string)
    ensures Lines(lines + [x]) == Lines(lines) + x + "\n"
    decreases |lines|
  {
    if lines == [] {
      assert [] + [x] == [x];
    } else {
      assert (lines + [x])[1..] == lines[1..] + [x];
      LinesSnoc(lines[1..], x);
    }
  }

  lemma {:induction false} SplitLinesCons(t: string, rest: string)
    requires '\n' !in t
    ensures SplitLines(t + "\n" + rest) == [t] + SplitLines(rest)
    decreases |t|
  {
    if t == [] {
      assert t + "\n" + rest == "\n" + rest;
    } else {
      SplitLinesCons(t[1..], rest);
      assert (t + "\n" + rest)[1..] == t[1..] + "\n" + rest;
      assert t == [t[0]] + t[1..];
    }
  }

  /**
   * `f.readlines()` on text already in Python's internal form: each line
   * keeps its terminating newline, the last line may lack one.
   */
  function ReadLines(s: string): (r: seq<string>)
    ensures forall k :: 0 <= k < |r| ==> r[k] != []
  {
    if s == [] then []
    else if s[0] == '\n' then ["\n"] + ReadLines(s[1..])
    else
      var rest := ReadLines(s[1..]);
      if rest == [] then [[s[0]]] else [[s[0]] + rest[0]] + rest[1..]
  }

  /** Text-mode reading turns "\r\n" and a lone "\r" into "\n" (universal newlines). */
  function Translate(s: string): (r: string)
    ensures '\r' !in r
  {
    if s == [] then []
    else if s[0] == '\r' then
      if |s| > 1 && s[1] == '\n' then "\n" + Translate(s[2..]) else "\n" + Translate(s[1..])
    else [s[0]] + Translate(s[1..])
  }

  lemma {:induction false} TranslateNoCarriageReturn(s: string)
    requires '\r' !in s
    ensures Translate(s) == s
    decreases |s|
  {
    if s != [] {
      TranslateNoCarriageReturn(s[1..]);
    }
  }

  lemma {:induction false} ReadLinesCons(t: string, rest: string)
    requires '\n' !in t
    ensures ReadLines(t + "\n" + rest) == [t + "\n"] + ReadLines(rest)
    decreases |t|
  {
    if t == [] {
      assert t + "\n" + rest == "\n" + rest;
      assert ("\n" + rest)[1..] == rest;
    } else {
      ReadLinesCons(t[1..], rest);
      assert (t + "\n" + rest)[1..] == t[1..] + "\n" + rest;
      assert t + "\n" == [t[0]] + (t[1..] + "\n");
    }
  }

  /** Only the last character of a line read by `readlines()` can be a newline, and the lines add no characters. */
  lemma {:induction false} ReadLinesShape(s: string)
    ensures forall k, j :: 0 <= k < |ReadLines(s)| && 0 <= j < |ReadLines(s)[k]| - 1 ==> ReadLines(s)[k][j] != '\n'
    ensures forall k, c :: 0 <= k < |ReadLines(s)| && c in ReadLines(s)[k] ==> c in s
    decreases |s|
  {
    if s != [] {
      ReadLinesShape(s[1..]);
      var rest := ReadLines(s[1..]);
      assert forall c :: c in s[1..] ==> c in s;
      if s[0] == '\n' {
        assert ReadLines(s) == ["\n"] + rest;
      } else if rest == [] {
        assert ReadLines(s) == [[s[0]]];
      } else {
        var first := [s[0]] + rest[0];
        assert forall j :: 1 <= j < |first| ==> first[j] == rest[0][j - 1];
        assert forall c :: c in first ==> c == s[0] || c in rest[0];
        assert ReadLines(s) == [first] + rest[1..];
      }
    }
  }

  lemma {:induction false} LinesHaveNoCarriageReturn(lines: seq<string>)
    requires forall k :: 0 <= k < |lines| ==> '\r' !in lines[k]
    ensures '\r' !in Lines(lines)
    decreases |lines|
  {
    if lines != [] {
      LinesHaveNoCarriageReturn(lines[1..]);
    }
  }
}
