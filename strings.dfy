/** Python string and regular-expression primitives used by the preprocessing code,
    modelled as explicit functions over character sequences (no regex engine).
    Character classes follow Python's `str` patterns restricted to ASCII. */
module Strings {

  datatype Option<T> = None | Some(value: T)

  // ---------------------------------------------------------------------------
  // Character classes

  /** Code point 0x00..0x7F: the complement of the class [^\x00-\x7F]. */
  predicate IsAscii(c: char) { c as int <= 0x7F }

  predicate IsNonAscii(c: char) { !IsAscii(c) }

  /** \w on ASCII: letters, digits and underscore. */
  predicate IsWordChar(c: char) {
    ('a' <= c <= 'z') || ('A' <= c <= 'Z') || ('0' <= c <= '9') || c == '_'
  }

  /** \s on ASCII, which is also what str.strip() removes on ASCII:
      space, \t \n \x0b \x0c \r and the separators \x1c-\x1f. */
  predicate IsSpace(c: char) {
    c == ' ' || (9 <= c as int <= 13) || (28 <= c as int <= 31)
  }

  predicate IsDot(c: char) { c == '.' }

  /** Every character of `s` satisfies `p`. */
  predicate AllChars(s: string, p: char -> bool) {
    forall i :: 0 <= i < |s| ==> p(s[i])
  }

  /** Every character of `r` occurs in `s` or in `extra`. */
  ghost predicate CharsFrom(r: string, s: string, extra: string) {
    forall i :: 0 <= i < |r| ==> r[i] in s || r[i] in extra
  }

  lemma CharsFromParts(r1: string, r2: string, s: string, k: nat, extra: string)
    requires k <= |s| && CharsFrom(r1, s, extra) && CharsFrom(r2, s[k..], extra)
    ensures CharsFrom(r1 + r2, s, extra)
  {
    forall i | 0 <= i < |r1 + r2| ensures (r1 + r2)[i] in s || (r1 + r2)[i] in extra {
      if i >= |r1| {
        assert (r1 + r2)[i] == r2[i - |r1|];
        if r2[i - |r1|] in s[k..] {
          var j :| 0 <= j < |s[k..]| && s[k..][j] == r2[i - |r1|];
          assert s[k + j] == r2[i - |r1|];
        }
      } else {
        assert (r1 + r2)[i] == r1[i];
      }
    }
  }

  lemma CharsFromAvoids(r: string, s: string, extra: string, x: char)
    requires CharsFrom(r, s, extra) && x !in s && x !in extra
    ensures x !in r
  {
  }

  // ---------------------------------------------------------------------------
  // Substrings: Python's `a in b` on strings

  predicate IsPrefix(p: string, s: string) {
    |p| <= |s| && s[..|p|] == p
  }

  /** `p in s`; the empty string occurs in every string. */
  predicate IsSubstring(p: string, s: string) {
    exists k :: 0 <= k <= |s| - |p| && IsPrefix(p, s[k..])
  }

  lemma {:induction false} SubstringOfTail(p: string, s: string)
    requires s != [] && IsSubstring(p, s[1..])
    ensures IsSubstring(p, s)
  {
    var k :| 0 <= k <= |s[1..]| - |p| && IsPrefix(p, s[1..][k..]);
    assert s[1..][k..] == s[k + 1..];
  }

  // ---------------------------------------------------------------------------
  // re.search for patterns whose only metacharacter is '.'

  /** A pattern '.' matches any character but '\n'; any other pattern character itself. */
  predicate PatternCharMatches(p: char, c: char) {
    if p == '.' then c != '\n' else c == p
  }

  /** The pattern matches at the start of `s`. */
  predicate MatchesAt(pat: string, s: string) {
    |pat| <= |s| && forall k :: 0 <= k < |pat| ==> PatternCharMatches(pat[k], s[k])
  }

  /** re.search(pat, s) is not None. */
  predicate RegexSearch(pat: string, s: string) {
    exists k :: 0 <= k <= |s| - |pat| && MatchesAt(pat, s[k..])
  }

  // ---------------------------------------------------------------------------
  // str.replace(pat, rep): leftmost, non-overlapping, left to right

  function ReplaceAll(s: string, pat: string, rep: string): (r: string)
    requires pat != []
    ensures |rep| <= |pat| ==> |r| <= |s|
    decreases |s|
  {
    if |s| < |pat| then s
    else if s[..|pat|] == pat then rep + ReplaceAll(s[|pat|..], pat, rep)
    else [s[0]] + ReplaceAll(s[1..], pat, rep)
  }

  /** Each character of the result comes from the text or from the replacement. */
  lemma {:induction false} ReplaceAllChars(s: string, pat: string, rep: string)
    requires pat != []
    ensures CharsFrom(ReplaceAll(s, pat, rep), s, rep)
    decreases |s|
  {
    if |s| >= |pat| {
      if s[..|pat|] == pat {
        ReplaceAllChars(s[|pat|..], pat, rep);
        CharsFromParts(rep, ReplaceAll(s[|pat|..], pat, rep), s, |pat|, rep);
      } else {
        ReplaceAllChars(s[1..], pat, rep);
        CharsFromParts([s[0]], ReplaceAll(s[1..], pat, rep), s, 1, rep);
      }
    }
  }

  /** A string with no occurrence of the pattern is returned unchanged. */
  lemma {:induction false} ReplaceAllAbsent(s: string, pat: string, rep: string)
    requires pat != [] && !IsSubstring(pat, s)
    ensures ReplaceAll(s, pat, rep) == s
    decreases |s|
  {
    if |s| >= |pat| {
      assert s[0..] == s;
      assert s[..|pat|] != pat;
      if IsSubstring(pat, s[1..]) {
        SubstringOfTail(pat, s);
      }
      ReplaceAllAbsent(s[1..], pat, rep);
    }
  }

  /** The leftmost occurrence is replaced and scanning resumes after it: when the first
      occurrence of the pattern starts at k, the text before k is kept, the occurrence
      becomes `rep` and the text after it, `rest`, is rewritten in turn. */
  lemma {:induction false} ReplaceAllAt(s: string, pat: string, rep: string, k: nat, rest: string)
    requires pat != [] && k + |pat| <= |s| && s[k..k + |pat|] == pat && rest == s[k + |pat|..]
    requires forall j :: 0 <= j < k ==> !IsPrefix(pat, s[j..])
    ensures ReplaceAll(s, pat, rep) == s[..k] + rep + ReplaceAll(rest, pat, rep)
    decreases k
  {
    if k == 0 {
      assert s[..|pat|] == s[0..|pat|];
    } else {
      var t := s[1..];
      assert !IsPrefix(pat, s[0..]);
      ReplaceAllSkip(s, pat, rep);
      NoPrefixShift(s, pat, k);
      ShiftedWindow(s, t, pat, k, rest);
      ReplaceAllAt(t, pat, rep, k - 1, rest);
      ShiftedReplacement(s, ReplaceAll(s, pat, rep), ReplaceAll(t, pat, rep), rep,
        ReplaceAll(rest, pat, rep), k);
    }
  }

  /** Bookkeeping for the step of ReplaceAllAt: the occurrence seen from the tail. */
  lemma ShiftedWindow(s: string, t: string, pat: string, k: nat, rest: string)
    requires 0 < k && k + |pat| <= |s| && t == s[1..]
    requires s[k..k + |pat|] == pat && rest == s[k + |pat|..]
    ensures t[k - 1..k - 1 + |pat|] == pat && t[k - 1 + |pat|..] == rest
  {
  }

  /** Bookkeeping for the step of ReplaceAllAt: prepending the skipped character. */
  lemma ShiftedReplacement(s: string, whole: string, recur: string, rep: string, tail: string, k: nat)
    requires 0 < k <= |s|
    requires whole == [s[0]] + recur && recur == s[1..][..k - 1] + rep + tail
    ensures whole == s[..k] + rep + tail
  {
    assert [s[0]] + s[1..][..k - 1] == s[..k];
  }

  lemma ReplaceAllSkip(s: string, pat: string, rep: string)
    requires pat != [] && |pat| <= |s| && !IsPrefix(pat, s[0..])
    ensures ReplaceAll(s, pat, rep) == [s[0]] + ReplaceAll(s[1..], pat, rep)
  {
    assert s[0..] == s;
  }

  lemma NoPrefixShift(s: string, pat: string, k: nat)
    requires 0 < k <= |s|
    requires forall j :: 0 <= j < k ==> !IsPrefix(pat, s[j..])
    ensures forall j :: 0 <= j < k - 1 ==> !IsPrefix(pat, s[1..][j..])
  {
    forall j | 0 <= j < k - 1 ensures !IsPrefix(pat, s[1..][j..]) {
      assert s[1..][j..] == s[j + 1..];
    }
  }

  /** A pattern holding a character the text lacks does not occur in it. */
  lemma AbsentByChar(pat: string, s: string, i: nat)
    requires i < |pat| && pat[i] !in s
    ensures !IsSubstring(pat, s)
  {
    forall k | 0 <= k <= |s| - |pat| ensures !IsPrefix(pat, s[k..]) {
      assert s[k..][i] == s[k + i];
    }
  }

  /** Deleting a suffix that occurs only at the end: when its first character does not
      recur in it, no occurrence can straddle the join. */
  lemma DeleteTrailing(s: string, suf: string)
    requires suf != [] && suf[0] !in suf[1..] && !IsSubstring(suf, s)
    ensures ReplaceAll(s + suf, suf, "") == s
  {
    var t := s + suf;
    forall j | 0 <= j < |s| ensures !IsPrefix(suf, t[j..]) {
      if j + |suf| <= |s| {
        assert t[j..][..|suf|] == s[j..][..|suf|];
        assert !IsPrefix(suf, s[j..]);
      } else {
        var d := |s| - j;
        assert suf[1..][d - 1] == suf[d] && suf[d] != suf[0];
        assert t[j..][d] == t[|s|] == suf[0];
      }
    }
    assert t[|s|..|s| + |suf|] == suf && t[|s| + |suf|..] == [];
    ReplaceAllAt(t, suf, "", |s|, []);
    assert t[..|s|] == s;
  }

  /** Replacing one character by a string of one character is a character-wise map. */
  lemma {:induction false} ReplaceCharAt(s: string, x: char, y: char)
    ensures |ReplaceAll(s, [x], [y])| == |s|
    ensures forall i :: 0 <= i < |s| ==>
      ReplaceAll(s, [x], [y])[i] == (if s[i] == x then y else s[i])
    decreases |s|
  {
    if s != [] {
      ReplaceCharAt(s[1..], x, y);
      assert s[..1] == [s[0]];
    }
  }

  /** After lyrics.replace('\n', ' ') no newline is left. */
  lemma NewlinesJoined(s: string)
    ensures '\n' !in ReplaceAll(s, "\n", " ")
  {
    ReplaceCharAt(s, '\n', ' ');
    var r := ReplaceAll(s, "\n", " ");
    forall i | 0 <= i < |r| ensures r[i] != '\n' {
      assert r[i] == (if s[i] == '\n' then ' ' else s[i]);
    }
  }

  /** Joining lines introduces no character other than ' '. */
  lemma JoinedAvoids(s: string, x: char)
    requires x !in s && x != ' '
    ensures x !in ReplaceAll(s, "\n", " ")
  {
    ReplaceCharAt(s, '\n', ' ');
    var r := ReplaceAll(s, "\n", " ");
    forall i | 0 <= i < |r| ensures r[i] != x {
      assert r[i] == (if s[i] == '\n' then ' ' else s[i]);
    }
  }

  lemma JoinedOther(c: char)
    requires c != '\n'
    ensures ReplaceAll([c], "\n", " ") == [c]
  {
    assert [c][..1] == [c] && [c][1..] == [];
  }

  /** Joining lines acts on the pieces around a bracketed span separately. */
  lemma JoinedSpan(p: string, m: string, q: string)
    ensures ReplaceAll(p + "[" + m + "]" + q, "\n", " ")
         == ReplaceAll(p, "\n", " ") + "[" + ReplaceAll(m, "\n", " ") + "]" + ReplaceAll(q, "\n", " ")
  {
    ReplaceCharConcat(p + "[" + m + "]", q, '\n', " ");
    ReplaceCharConcat(p + "[" + m, "]", '\n', " ");
    ReplaceCharConcat(p + "[", m, '\n', " ");
    ReplaceCharConcat(p, "[", '\n', " ");
    JoinedOther('[');
    JoinedOther(']');
  }

  /** Deleting one character, and mapping it to another, distribute over concatenation. */
  lemma {:induction false} ReplaceCharConcat(a: string, b: string, x: char, rep: string)
    requires |rep| <= 1
    ensures ReplaceAll(a + b, [x], rep) == ReplaceAll(a, [x], rep) + ReplaceAll(b, [x], rep)
    decreases |a|
  {
    if a != [] {
      assert (a + b)[1..] == a[1..] + b;
      assert (a + b)[..1] == [a[0]];
      assert a[..1] == [a[0]];
      ReplaceCharConcat(a[1..], b, x, rep);
    } else {
      assert a + b == b;
    }
  }

  /** Deleting a single character keeps exactly the other characters. */
  lemma {:induction false} ReplaceCharByNothing(s: string, x: char)
    ensures ReplaceAll(s, [x], []) == Keep(s, NotIn([x]))
    decreases |s|
  {
    if s != [] {
      assert s[..1] == [s[0]];
      ReplaceCharByNothing(s[1..], x);
    }
  }

  // ---------------------------------------------------------------------------
  // Filtering characters (re.sub of a class by '', str.encode(..., 'ignore'))

  /** The characters of `s` that satisfy `p`, in order. */
  function Keep(s: string, p: char -> bool): (r: string)
    ensures |r| <= |s|
    ensures AllChars(r, p)
    decreases |s|
  {
    if s == [] then []
    else (if p(s[0]) then [s[0]] else []) + Keep(s[1..], p)
  }

  /** The character predicate "not one of `cs`". */
  function NotIn(cs: seq<char>): char -> bool {
    c => c !in cs
  }

  lemma {:induction false} KeepConcat(a: string, b: string, p: char -> bool)
    ensures Keep(a + b, p) == Keep(a, p) + Keep(b, p)
    decreases |a|
  {
    if a != [] {
      var head := if p(a[0]) then [a[0]] else [];
      assert (a + b)[0] == a[0];
      assert (a + b)[1..] == a[1..] + b;
      assert Keep(a + b, p) == head + Keep(a[1..] + b, p);
      KeepConcat(a[1..], b, p);
      assert Keep(a, p) == head + Keep(a[1..], p);
    } else {
      assert a + b == b;
    }
  }

  /** A string whose characters all pass the filter is returned unchanged. */
  lemma {:induction false} KeepAll(s: string, p: char -> bool)
    requires AllChars(s, p)
    ensures Keep(s, p) == s
    decreases |s|
  {
    if s != [] {
      KeepAll(s[1..], p);
    }
  }

  /** Two deletions in a row delete the union of the two sets of characters. */
  lemma {:induction false} KeepNotInTwice(s: string, cs: seq<char>, ds: seq<char>)
    ensures Keep(Keep(s, NotIn(cs)), NotIn(ds)) == Keep(s, NotIn(cs + ds))
    decreases |s|
  {
    if s != [] {
      KeepConcat(if NotIn(cs)(s[0]) then [s[0]] else [], Keep(s[1..], NotIn(cs)), NotIn(ds));
      KeepNotInTwice(s[1..], cs, ds);
    }
  }

  // ---------------------------------------------------------------------------
  // str.strip(chars)

  /** Drops the longest prefix of characters satisfying `drop`. */
  function TrimStart(s: string, drop: char -> bool): (r: string)
    ensures |r| <= |s| && r == s[|s| - |r|..]
    ensures forall k :: 0 <= k < |s| - |r| ==> drop(s[k])
    ensures r != [] ==> !drop(r[0])
    decreases |s|
  {
    if s != [] && drop(s[0]) then TrimStart(s[1..], drop) else s
  }

  /** Drops the longest suffix of characters satisfying `drop`. */
  function TrimEnd(s: string, drop: char -> bool): (r: string)
    ensures |r| <= |s| && r == s[..|r|]
    ensures forall k :: |r| <= k < |s| ==> drop(s[k])
    ensures r != [] ==> !drop(r[|r| - 1])
    decreases |s|
  {
    if s != [] && drop(s[|s| - 1]) then TrimEnd(s[..|s| - 1], drop) else s
  }

  /** Where the text that str.strip keeps begins. */
  function StripOffset(s: string, drop: char -> bool): (i: nat)
    ensures i <= |s|
  {
    |s| - |TrimStart(s, drop)|
  }

  /** str.strip: both ends, independently. */
  function Strip(s: string, drop: char -> bool): (r: string)
    ensures StripOffset(s, drop) + |r| <= |s|
    ensures r == s[StripOffset(s, drop)..StripOffset(s, drop) + |r|]
    ensures forall k :: 0 <= k < StripOffset(s, drop) ==> drop(s[k])
    ensures forall k :: StripOffset(s, drop) + |r| <= k < |s| ==> drop(s[k])
    ensures r != [] ==> !drop(r[0]) && !drop(r[|r| - 1])
  {
    TrimEnd(TrimStart(s, drop), drop)
  }

  /** A string whose ends are not stripped is returned unchanged. */
  lemma StripKeepsClean(s: string, drop: char -> bool)
    requires s != [] ==> !drop(s[0]) && !drop(s[|s| - 1])
    ensures Strip(s, drop) == s
  {
    var t := TrimStart(s, drop);
    assert t == s;
  }

  // ---------------------------------------------------------------------------
  // re.sub(r'C+', rep, s) for a character class C

  /** Every maximal run of characters of class `cls` becomes the single character `rep`. */
  function CollapseRuns(s: string, cls: char -> bool, rep: char): (r: string)
    ensures |r| <= |s|
    ensures forall i :: 0 <= i < |r| && cls(r[i]) ==>
      r[i] == rep && (i + 1 < |r| ==> !cls(r[i + 1]))
    ensures s != [] && !cls(s[0]) ==> r != [] && r[0] == s[0]
    decreases |s|
  {
    if s == [] then []
    else if cls(s[0]) then
      [rep] + CollapseRuns(TrimStart(s, cls), cls, rep)
    else [s[0]] + CollapseRuns(s[1..], cls, rep)
  }

  /** Each character of the result is `rep` or comes from the text. */
  lemma {:induction false} CollapseRunsChars(s: string, cls: char -> bool, rep: char)
    ensures CharsFrom(CollapseRuns(s, cls, rep), s, [rep])
    decreases |s|
  {
    if s != [] {
      if cls(s[0]) {
        var t := TrimStart(s, cls);
        CollapseRunsChars(t, cls, rep);
        CharsFromParts([rep], CollapseRuns(t, cls, rep), s, |s| - |t|, [rep]);
      } else {
        CollapseRunsChars(s[1..], cls, rep);
        CharsFromParts([s[0]], CollapseRuns(s[1..], cls, rep), s, 1, [rep]);
      }
    }
  }

  /** A character outside the class stops the strip. */
  lemma {:induction false} TrimStartStops(a: string, c: char, b: string, drop: char -> bool)
    requires !drop(c)
    ensures TrimStart(a + [c] + b, drop) == TrimStart(a, drop) + [c] + b
    decreases |a|
  {
    if a == [] {
      assert a + [c] + b == [c] + b;
    } else {
      assert (a + [c] + b)[0] == a[0];
      if drop(a[0]) {
        assert (a + [c] + b)[1..] == a[1..] + [c] + b;
        TrimStartStops(a[1..], c, b, drop);
      }
    }
  }

  /** A whole run is stripped away. */
  lemma TrimStartRun(s: string, drop: char -> bool)
    requires AllChars(s, drop)
    ensures TrimStart(s, drop) == []
  {
  }

  /** A character outside the class survives in place: the text on each side of it is
      collapsed on its own. */
  lemma {:induction false} CollapseRunsSplit(a: string, c: char, b: string, cls: char -> bool, rep: char)
    requires !cls(c)
    ensures CollapseRuns(a + [c] + b, cls, rep) == CollapseRuns(a, cls, rep) + [c] + CollapseRuns(b, cls, rep)
    decreases |a|
  {
    var s := a + [c] + b;
    if a == [] {
      assert s == [c] + b;
      CollapseRunsKeeps(s, cls, rep);
      assert s[1..] == b;
    } else if cls(a[0]) {
      assert s[0] == a[0];
      var t := TrimStart(a, cls);
      TrimStartStops(a, c, b, cls);
      CollapseRunsSplit(t, c, b, cls, rep);
      CollapseRunsCollapses(s, cls, rep);
      CollapseRunsCollapses(a, cls, rep);
      Regroup([rep], CollapseRuns(t, cls, rep), [c], CollapseRuns(b, cls, rep));
    } else {
      assert s[0] == a[0];
      var a' := a[1..];
      assert s[1..] == a' + [c] + b;
      CollapseRunsSplit(a', c, b, cls, rep);
      CollapseRunsKeeps(s, cls, rep);
      CollapseRunsKeeps(a, cls, rep);
      Regroup([a[0]], CollapseRuns(a', cls, rep), [c], CollapseRuns(b, cls, rep));
    }
  }

  lemma CollapseRunsKeeps(s: string, cls: char -> bool, rep: char)
    requires s != [] && !cls(s[0])
    ensures CollapseRuns(s, cls, rep) == [s[0]] + CollapseRuns(s[1..], cls, rep)
  {
  }

  lemma CollapseRunsCollapses(s: string, cls: char -> bool, rep: char)
    requires s != [] && cls(s[0])
    ensures CollapseRuns(s, cls, rep) == [rep] + CollapseRuns(TrimStart(s, cls), cls, rep)
  {
  }

  lemma Regroup(w: string, x: string, y: string, z: string)
    ensures w + (x + y + z) == (w + x) + y + z
  {
  }

  /** A maximal run becomes exactly one `rep`. */
  lemma CollapseRunsRun(s: string, cls: char -> bool, rep: char)
    requires s != [] && AllChars(s, cls)
    ensures CollapseRuns(s, cls, rep) == [rep]
  {
    TrimStartRun(s, cls);
    assert CollapseRuns(s, cls, rep) == [rep] + CollapseRuns([], cls, rep);
  }

  /** Every class character is a lone copy of `rep`: there is no run left to collapse. */
  ghost predicate SingleRuns(s: string, cls: char -> bool, rep: char) {
    && (forall i :: 0 <= i < |s| && cls(s[i]) ==> s[i] == rep)
    && (forall i, j :: 0 <= i < j < |s| && j == i + 1 && cls(s[i]) ==> !cls(s[j]))
  }

  lemma SingleRunsTail(s: string, cls: char -> bool, rep: char)
    requires s != [] && SingleRuns(s, cls, rep)
    ensures SingleRuns(s[1..], cls, rep)
  {
    var t := s[1..];
    assert forall i :: 0 <= i < |t| ==> t[i] == s[i + 1];
  }

  lemma SingleRunsHead(s: string, cls: char -> bool, rep: char)
    requires s != [] && cls(s[0]) && SingleRuns(s, cls, rep)
    ensures s[0] == rep && TrimStart(s, cls) == s[1..]
    ensures s[1..] == [] || !cls(s[1..][0])
  {
    if |s| > 1 {
      assert !cls(s[1]);
    }
  }

  lemma TrimStartNone(t: string, drop: char -> bool)
    requires t == [] || !drop(t[0])
    ensures TrimStart(t, drop) == t
  {
  }

  /** A string whose class characters are already single copies of `rep` is unchanged. */
  lemma {:induction false} CollapseRunsNoRuns(s: string, cls: char -> bool, rep: char)
    requires SingleRuns(s, cls, rep)
    ensures CollapseRuns(s, cls, rep) == s
    decreases |s|
  {
    if s != [] {
      var t := s[1..];
      SingleRunsTail(s, cls, rep);
      CollapseRunsNoRuns(t, cls, rep);
      if cls(s[0]) {
        SingleRunsHead(s, cls, rep);
        TrimStartNone(t, cls);
        CollapseRunsCollapses(s, cls, rep);
      } else {
        CollapseRunsKeeps(s, cls, rep);
      }
      assert [s[0]] + t == s;
    }
  }

  // ---------------------------------------------------------------------------
  // re.sub(r'\[.*?\]', rep, s): `.` matches anything but '\n' (no DOTALL flag)

  /** Where the lazy `.*?\]` ends when scanning `s`: the first ']' not preceded by a '\n'. */
  function CloseIndex(s: string): (r: Option<nat>)
    ensures r.Some? ==> r.value < |s| && s[r.value] == ']'
    ensures r.Some? ==> forall k :: 0 <= k < r.value ==> s[k] != ']' && s[k] != '\n'
    ensures r.None? ==> forall k :: 0 <= k < |s| && s[k] == ']' ==>
      exists j :: 0 <= j < k && s[j] == '\n'
    decreases |s|
  {
    if s == [] then None
    else if s[0] == ']' then Some(0)
    else if s[0] == '\n' then None
    else match CloseIndex(s[1..])
      case None =>
        assert forall k :: 1 <= k < |s| && s[k] == ']' ==> s[1..][k - 1] == ']';
        None
      case Some(j) => Some(j + 1)
  }

  /** Each leftmost-shortest bracketed span, brackets included, becomes `rep`. */
  function SubBracketed(s: string, rep: string): (r: string)
    decreases |s|
  {
    if s == [] then []
    else if s[0] == '[' && CloseIndex(s[1..]).Some? then
      var j := CloseIndex(s[1..]).value;
      rep + SubBracketed(s[j + 2..], rep)
    else [s[0]] + SubBracketed(s[1..], rep)
  }

  /** Each character of the result comes from the text or from the replacement. */
  lemma {:induction false} SubBracketedChars(s: string, rep: string)
    ensures CharsFrom(SubBracketed(s, rep), s, rep)
    decreases |s|
  {
    if s != [] {
      if s[0] == '[' && CloseIndex(s[1..]).Some? {
        var j := CloseIndex(s[1..]).value;
        SubBracketedChars(s[j + 2..], rep);
        CharsFromParts(rep, SubBracketed(s[j + 2..], rep), s, j + 2, rep);
      } else {
        SubBracketedChars(s[1..], rep);
        CharsFromParts([s[0]], SubBracketed(s[1..], rep), s, 1, rep);
      }
    }
  }

  /** No bracket that is still open: no '[' with a ']' anywhere after it. */
  predicate NoBracketPair(s: string) {
    forall i, j :: 0 <= i < j < |s| && s[i] == '[' ==> s[j] != ']'
  }

  /** A replacement no longer than the brackets themselves never lengthens the text. */
  lemma {:induction false} SubBracketedShorter(s: string, rep: string)
    requires |rep| <= 2
    ensures |SubBracketed(s, rep)| <= |s|
    decreases |s|
  {
    if s != [] {
      if s[0] == '[' && CloseIndex(s[1..]).Some? {
        SubBracketedShorter(s[CloseIndex(s[1..]).value + 2..], rep);
      } else {
        SubBracketedShorter(s[1..], rep);
      }
    }
  }

  /** Text without '[' is unchanged. */
  lemma {:induction false} SubBracketedNoOpen(s: string, rep: string)
    requires '[' !in s
    ensures SubBracketed(s, rep) == s
    decreases |s|
  {
    if s != [] {
      assert s[0] != '[';
      assert forall x :: x in s[1..] ==> x in s;
      SubBracketedNoOpen(s[1..], rep);
    }
  }

  lemma NoBracketPairConcat(a: string, b: string)
    requires NoBracketPair(a) && NoBracketPair(b)
    requires '[' !in a || ']' !in b
    ensures NoBracketPair(a + b)
  {
    forall i, k | 0 <= i < k < |a + b| && (a + b)[i] == '['
      ensures (a + b)[k] != ']'
    {
      if k < |a| {
        assert (a + b)[k] == a[k] && (a + b)[i] == a[i];
      } else if i >= |a| {
        assert (a + b)[i] == b[i - |a|] && (a + b)[k] == b[k - |a|];
      } else {
        assert (a + b)[i] == a[i] && (a + b)[k] == b[k - |a|];
      }
    }
  }

  /** An unmatched '[' on newline-free text has no ']' after it. */
  lemma NoCloseNoNewline(s: string)
    requires '\n' !in s && CloseIndex(s).None?
    ensures ']' !in s
  {
  }

  /** On newline-free text every span is rewritten: no '[' is left before a ']'. */
  lemma {:induction false} SubBracketedClosesAll(s: string, rep: string)
    requires '\n' !in s && '[' !in rep && ']' !in rep
    ensures NoBracketPair(SubBracketed(s, rep))
    decreases |s|
  {
    if s != [] {
      if s[0] == '[' && CloseIndex(s[1..]).Some? {
        var j := CloseIndex(s[1..]).value;
        assert forall x :: x in s[j + 2..] ==> x in s;
        SubBracketedClosesAll(s[j + 2..], rep);
        NoBracketPairConcat(rep, SubBracketed(s[j + 2..], rep));
      } else {
        assert forall x :: x in s[1..] ==> x in s;
        SubBracketedClosesAll(s[1..], rep);
        if s[0] == '[' {
          NoCloseNoNewline(s[1..]);
          SubBracketedChars(s[1..], rep);
          CharsFromAvoids(SubBracketed(s[1..], rep), s[1..], rep, ']');
        }
        NoBracketPairConcat([s[0]], SubBracketed(s[1..], rep));
      }
    }
  }

  /** The leftmost '[' and the first ']' after it (no '\n' between) are one span:
      p + "[" + m + "]" + q becomes p + rep + (q rewritten). */
  lemma SubBracketedSpan(p: string, m: string, q: string, rep: string)
    requires '[' !in p && ']' !in m && '\n' !in m
    ensures SubBracketed(p + "[" + m + "]" + q, rep) == p + rep + SubBracketed(q, rep)
  {
    var u := "[" + m + "]" + q;
    assert p + "[" + m + "]" + q == p + u;
    SubBracketedPrefix(p, u, rep);
    SubBracketedOpening(m, q, rep);
  }

  /** Text before the first '[' is copied. */
  lemma {:induction false} SubBracketedPrefix(p: string, u: string, rep: string)
    requires '[' !in p
    ensures SubBracketed(p + u, rep) == p + SubBracketed(u, rep)
    decreases |p|
  {
    if p != [] {
      var t := p[1..] + u;
      assert p + u == [p[0]] + t;
      SubBracketedPrefix(p[1..], u, rep);
      SubBracketedSkip(p[0], t, rep);
      assert [p[0]] + (p[1..] + SubBracketed(u, rep)) == p + SubBracketed(u, rep);
    } else {
      assert p + u == u;
    }
  }

  /** A text opening with a bracketed span. */
  lemma SubBracketedOpening(m: string, q: string, rep: string)
    requires ']' !in m && '\n' !in m
    ensures SubBracketed("[" + m + "]" + q, rep) == rep + SubBracketed(q, rep)
  {
    var s := "[" + m + "]" + q;
    assert s[1..] == m + "]" + q;
    CloseAfter(m, q);
    assert s[|m| + 2..] == q;
  }

  /** A text not opening with '[' keeps its first character. */
  lemma SubBracketedSkip(c: char, t: string, rep: string)
    requires c != '['
    ensures SubBracketed([c] + t, rep) == [c] + SubBracketed(t, rep)
  {
    assert ([c] + t)[1..] == t;
  }

  lemma {:induction false} CloseAfter(m: string, q: string)
    requires ']' !in m && '\n' !in m
    ensures CloseIndex(m + "]" + q) == Some(|m|)
    decreases |m|
  {
    if m != [] {
      assert (m + "]" + q)[1..] == m[1..] + "]" + q;
      CloseAfter(m[1..], q);
    }
  }

  // ---------------------------------------------------------------------------
  // Order-preserving subsequences

  /** `a` is obtained from `b` by deleting elements, keeping the order of the rest. */
  ghost predicate Subsequence<T>(a: seq<T>, b: seq<T>)
    decreases |b|
  {
    a == [] || (b != [] && ((a[0] == b[0] && Subsequence(a[1..], b[1..])) || Subsequence(a, b[1..])))
  }
}
