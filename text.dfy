/** The string operations the publishing script relies on, with Python's
    semantics: `str.endswith`, `sep.join(parts)` and `s.replace(pat, rep)`;
    and `s.split(c)`, which the script does not call, as the inverse of
    `join` that reads a joined list back. */
module Text {

  /** `s.endswith(suffix)` */
  predicate EndsWith(s: string, suffix: string) {
    |suffix| <= |s| && s[|s| - |suffix|..] == suffix
  }

  /** `sep.join(parts)`: the parts with `sep` between neighbours. */
  function Join(parts: seq<string>, sep: string): string {
    if |parts| == 0 then ""
    else if |parts| == 1 then parts[0]
    else parts[0] + sep + Join(parts[1..], sep)
  }

  /** `s.split(c)` for a one-character separator: the maximal pieces between
      separators, always at least one (an empty `s` gives `[""]`). */
  function Split(s: string, c: char): (pieces: seq<string>)
    ensures |pieces| >= 1
    ensures forall k :: 0 <= k < |pieces| ==> c !in pieces[k]
  {
    if s == [] then [""]
    else
      var rest := Split(s[1..], c);
      if s[0] == c then [""] + rest
      else [[s[0]] + rest[0]] + rest[1..]
  }

  /** `pat` occurs in `s` starting at index `i`. */
  predicate OccursAt(s: string, pat: string, i: int) {
    0 <= i && i + |pat| <= |s| && s[i..i + |pat|] == pat
  }

  predicate Contains(s: string, pat: string) {
    exists i :: 0 <= i <= |s| && OccursAt(s, pat, i)
  }

  /** `s.replace(pat, rep)`: scans left to right and replaces every
      non-overlapping occurrence of `pat` by `rep`. */
  function ReplaceAll(s: string, pat: string, rep: string): string
    requires pat != []
    decreases |s|
  {
    if |s| < |pat| then s
    else if s[..|pat|] == pat then rep + ReplaceAll(s[|pat|..], pat, rep)
    else [s[0]] + ReplaceAll(s[1..], pat, rep)
  }

  // ---------------------------------------------------------------------
  // Join and Split are inverse to each other.

  lemma {:induction false} SplitWithoutSeparator(s: string, c: char)
    requires c !in s
    ensures Split(s, c) == [s]
    decreases |s|
  {
    if s != [] {
      SplitWithoutSeparator(s[1..], c);
      assert [s[0]] + s[1..] == s;
    }
  }

  lemma {:induction false} SplitAfterPiece(p: string, c: char, t: string)
    requires c !in p
    ensures Split(p + [c] + t, c) == [p] + Split(t, c)
    decreases |p|
  {
    if p == [] {
      assert (p + [c] + t)[1..] == t;
    } else {
      assert (p + [c] + t)[1..] == p[1..] + [c] + t;
      SplitAfterPiece(p[1..], c, t);
      assert [p[0]] + p[1..] == p;
    }
  }

  /** Splitting a newline-joined list of names that hold no newline gives the
      names back. */
  lemma {:induction false} SplitJoin(parts: seq<string>, c: char)
    requires |parts| >= 1
    requires forall k :: 0 <= k < |parts| ==> c !in parts[k]
    ensures Split(Join(parts, [c]), c) == parts
    decreases |parts|
  {
    if |parts| == 1 {
      SplitWithoutSeparator(parts[0], c);
    } else {
      SplitJoin(parts[1..], c);
      SplitAfterPiece(parts[0], c, Join(parts[1..], [c]));
      assert [parts[0]] + parts[1..] == parts;
    }
  }

  /** Joining the pieces of a split with the separator gives the text back. */
  lemma {:induction false} JoinSplit(s: string, c: char)
    ensures Join(Split(s, c), [c]) == s
    decreases |s|
  {
    if s != [] {
      var rest := Split(s[1..], c);
      JoinSplit(s[1..], c);
      if s[0] == c {
        assert ([""] + rest)[1..] == rest;
      } else {
        var pieces := [[s[0]] + rest[0]] + rest[1..];
        if |rest| == 1 {
          assert Join(rest, [c]) == rest[0];
        } else {
          assert pieces[1..] == rest[1..];
          assert Join(rest, [c]) == rest[0] + [c] + Join(rest[1..], [c]);
        }
      }
    }
  }

  // ---------------------------------------------------------------------
  // What ReplaceAll does.

  lemma OccursInTail(s: string, pat: string, i: nat)
    requires |s| >= 1
    ensures OccursAt(s[1..], pat, i) <==> OccursAt(s, pat, i + 1)
  {
  }

  /** A text without the pattern is left unchanged. */
  lemma {:induction false} ReplaceAbsent(s: string, pat: string, rep: string)
    requires pat != []
    requires !Contains(s, pat)
    ensures ReplaceAll(s, pat, rep) == s
    decreases |s|
  {
    if |s| >= |pat| {
      assert !OccursAt(s, pat, 0);
      assert s[0..|pat|] == s[..|pat|];
      forall i: nat | OccursAt(s[1..], pat, i) ensures false {
        OccursInTail(s, pat, i);
      }
      ReplaceAbsent(s[1..], pat, rep);
      assert [s[0]] + s[1..] == s;
    }
  }

  /** Where the pattern does not start the text, the first character is
      kept and the scan moves on by one. */
  lemma ReplaceSkip(s: string, pat: string, rep: string)
    requires pat != [] && s != [] && !OccursAt(s, pat, 0)
    ensures ReplaceAll(s, pat, rep) == [s[0]] + ReplaceAll(s[1..], pat, rep)
  {
    if |s| >= |pat| {
      assert s[0..|pat|] == s[..|pat|];
    }
  }

  /** The first occurrence, at `k`, is replaced, and the scan resumes right
      after it. */
  lemma {:induction false} ReplaceFirst(s: string, pat: string, rep: string, k: nat)
    requires pat != []
    requires OccursAt(s, pat, k)
    requires forall i :: 0 <= i < k ==> !OccursAt(s, pat, i)
    ensures ReplaceAll(s, pat, rep) == s[..k] + rep + ReplaceAll(s[k + |pat|..], pat, rep)
    decreases k
  {
    if k == 0 {
      assert s[..|pat|] == pat;
    } else {
      var t := s[1..];
      ReplaceSkip(s, pat, rep);
      OccursInTail(s, pat, k - 1);
      forall i: nat | i < k - 1 ensures !OccursAt(t, pat, i) {
        OccursInTail(s, pat, i);
      }
      ReplaceFirst(t, pat, rep, k - 1);
      assert t[k - 1 + |pat|..] == s[k + |pat|..];
      var tail := ReplaceAll(s[k + |pat|..], pat, rep);
      assert ReplaceAll(s, pat, rep) == [s[0]] + (t[..k - 1] + rep + tail);
      assert [s[0]] + t[..k - 1] == s[..k];
      SeqRegroup(s[0], t[..k - 1], rep, tail);
    }
  }

  lemma SeqRegroup(c: char, a: string, b: string, d: string)
    ensures [c] + (a + b + d) == ([c] + a) + b + d
  {
  }

  /** A text holding the pattern exactly once, as `pre + pat + post`, becomes
      `pre + rep + post`. */
  lemma ReplaceSingle(pre: string, pat: string, post: string, rep: string)
    requires pat != []
    requires forall i :: 0 <= i < |pre| ==> !OccursAt(pre + pat + post, pat, i)
    requires !Contains(post, pat)
    ensures ReplaceAll(pre + pat + post, pat, rep) == pre + rep + post
  {
    var s := pre + pat + post;
    assert s[|pre|..|pre| + |pat|] == pat;
    ReplaceFirst(s, pat, rep, |pre|);
    assert s[..|pre|] == pre;
    assert s[|pre| + |pat|..] == post;
    ReplaceAbsent(post, pat, rep);
  }

  // ---------------------------------------------------------------------
  // Where a pattern cannot occur.

  /** A window that covers a character foreign to the pattern is no
      occurrence. */
  lemma NotAcross(s: string, pat: string, i: int, k: int)
    requires 0 <= i <= k < i + |pat| && k < |s|
    requires s[k] !in pat
    ensures !OccursAt(s, pat, i)
  {
  }

  /** An occurrence in a window of `s` that lies inside `t` at offset `d` is
      an occurrence in `t`. */
  lemma OccursShift(s: string, t: string, pat: string, i: int, d: int)
    requires 0 <= d <= i && i + |pat| <= d + |t| && d + |t| <= |s|
    requires s[d..d + |t|] == t
    requires OccursAt(s, pat, i)
    ensures OccursAt(t, pat, i - d)
  {
    var w, v, e := t[i - d..i - d + |pat|], s[i..i + |pat|], s[d..d + |t|];
    forall j | 0 <= j < |pat| ensures w[j] == v[j] {
      assert w[j] == t[i - d + j] == e[i - d + j];
    }
  }

  /** An occurrence in `t` is one in any `s` holding `t` at offset `d`. */
  lemma OccursLift(s: string, t: string, pat: string, j: int, d: int)
    requires 0 <= d && d + |t| <= |s| && s[d..d + |t|] == t
    requires OccursAt(t, pat, j)
    ensures OccursAt(s, pat, j + d)
  {
    var w, v, e := s[j + d..j + d + |pat|], t[j..j + |pat|], s[d..d + |t|];
    forall k | 0 <= k < |pat| ensures w[k] == v[k] {
      assert v[k] == t[j + k] == e[j + k];
    }
  }

  /** Gluing two texts without the pattern with a character foreign to it
      creates no occurrence. */
  lemma AbsentAcross(a: string, c: char, b: string, pat: string)
    requires !Contains(a, pat) && !Contains(b, pat) && c !in pat
    ensures !Contains(a + [c] + b, pat)
  {
    var s := a + [c] + b;
    forall i | 0 <= i <= |s| ensures !OccursAt(s, pat, i) {
      if OccursAt(s, pat, i) {
        if i + |pat| <= |a| {
          assert s[0..|a|] == a;
          OccursShift(s, a, pat, i, 0);
        } else if i > |a| {
          assert s[|a| + 1..|s|] == b;
          OccursShift(s, b, pat, i, |a| + 1);
        } else {
          NotAcross(s, pat, i, |a|);
        }
      }
    }
  }

  /** Joining texts without the pattern by a character foreign to it creates
      no occurrence. */
  lemma {:induction false} JoinAbsent(parts: seq<string>, c: char, pat: string)
    requires pat != [] && c !in pat
    requires forall k :: 0 <= k < |parts| ==> !Contains(parts[k], pat)
    ensures !Contains(Join(parts, [c]), pat)
    decreases |parts|
  {
    if |parts| == 0 {
      assert forall i :: 0 <= i ==> !OccursAt([], pat, i);
    } else if |parts| > 1 {
      JoinAbsent(parts[1..], c, pat);
      AbsentAcross(parts[0], c, Join(parts[1..], [c]), pat);
    }
  }

  /** A non-empty join starts with the first part and ends with the last. */
  lemma {:induction false} JoinEnds(parts: seq<string>, sep: string)
    requires parts != []
    ensures parts[0] <= Join(parts, sep)
    ensures EndsWith(Join(parts, sep), parts[|parts| - 1])
    decreases |parts|
  {
    if |parts| > 1 {
      JoinEnds(parts[1..], sep);
      var j := Join(parts[1..], sep);
      assert Join(parts, sep) == parts[0] + (sep + j);
      assert EndsWith(j, parts[|parts| - 1]);
      assert Join(parts, sep)[|Join(parts, sep)| - |parts[|parts| - 1]|..]
             == j[|j| - |parts[|parts| - 1]|..];
    }
  }

  /** A text put between `pre` and `post` in place of a single occurrence of
      the pattern leaves none behind, provided it holds none itself and its
      first and last characters are foreign to the pattern. */
  lemma AbsentBetween(pre: string, mid: string, post: string, pat: string)
    requires pat != []
    requires forall i :: 0 <= i < |pre| ==> !OccursAt(pre + pat + post, pat, i)
    requires !Contains(post, pat) && !Contains(mid, pat)
    requires mid != [] && mid[0] !in pat && mid[|mid| - 1] !in pat
    ensures !Contains(pre + mid + post, pat)
  {
    var s := pre + mid + post;
    var u := pre + pat + post;
    forall i | 0 <= i <= |s| ensures !OccursAt(s, pat, i) {
      if OccursAt(s, pat, i) {
        if i + |pat| <= |pre| {
          assert s[0..|pre|] == pre && u[0..|pre|] == pre;
          OccursShift(s, pre, pat, i, 0);
          OccursLift(u, pre, pat, i, 0);
        } else if i < |pre| {
          assert s[|pre|] == mid[0];
          NotAcross(s, pat, i, |pre|);
        } else if i + |pat| <= |pre| + |mid| {
          assert s[|pre|..|pre| + |mid|] == mid;
          OccursShift(s, mid, pat, i, |pre|);
        } else if i < |pre| + |mid| {
          assert s[|pre| + |mid| - 1] == mid[|mid| - 1];
          NotAcross(s, pat, i, |pre| + |mid| - 1);
        } else {
          assert s[|pre| + |mid|..|s|] == post;
          OccursShift(s, post, pat, i, |pre| + |mid|);
        }
      }
    }
  }
}
