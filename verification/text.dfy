/** The string operations of Python that the command line interface relies
    on: `str.isspace`/`str.strip`, the `in` substring test, `str.split`
    with a separator, `shlex.split`, `str.replace`, and `int()` on a token.

    The searching functions walk an index rather than slicing, so that the
    verifier can evaluate them on string literals (the fixed MIDI table). */
module Text {
  import opened Results

  /** Python's `str.isspace` for one character. */
  predicate IsSpace(c: char) {
    || ('\t' <= c <= '\r')
    || ('\U{1C}' <= c <= '\U{1F}')
    || c == ' '
    || c == '\U{85}'
    || c == '\U{A0}'
    || c == '\U{1680}'
    || ('\U{2000}' <= c <= '\U{200A}')
    || c == '\U{2028}'
    || c == '\U{2029}'
    || c == '\U{202F}'
    || c == '\U{205F}'
    || c == '\U{3000}'
  }

  /** Python's `not s.strip()`: the string holds nothing but whitespace. */
  predicate Blank(s: string) {
    forall i :: 0 <= i < |s| ==> IsSpace(s[i])
  }

  /** Index of the first non-whitespace character from `i` on, or `|s|`. */
  function SkipSpace(s: string, i: nat): (k: nat)
    requires i <= |s|
    ensures i <= k <= |s|
    ensures forall j :: i <= j < k ==> IsSpace(s[j])
    ensures k < |s| ==> !IsSpace(s[k])
    decreases |s| - i
  {
    if i == |s| || !IsSpace(s[i]) then i else SkipSpace(s, i + 1)
  }

  /** End of `s[..j]` once its trailing whitespace is dropped. */
  function TrimEnd(s: string, j: nat): (k: nat)
    requires j <= |s|
    ensures k <= j
    ensures forall m :: k <= m < j ==> IsSpace(s[m])
    ensures k > 0 ==> !IsSpace(s[k - 1])
  {
    if j == 0 || !IsSpace(s[j - 1]) then j else TrimEnd(s, j - 1)
  }

  /** Where `strip()` cuts: both cuts meet only for a blank string. */
  lemma StripCuts(s: string)
    ensures var a, b := SkipSpace(s, 0), TrimEnd(s, |s|);
      && Blank(s[..a]) && Blank(s[b..])
      && (a < b ==> !IsSpace(s[a]) && !IsSpace(s[b - 1]))
      && (a >= b <==> Blank(s))
  {
  }

  /** Python's `s.strip()`: empty exactly when `s` is blank; otherwise it
      starts and ends with a non-whitespace character, and only whitespace
      is cut off either side. */
  function Strip(s: string): (r: string)
    ensures r == [] <==> Blank(s)
    ensures r != [] ==> !IsSpace(r[0]) && !IsSpace(r[|r| - 1])
    ensures exists a :: 0 <= a <= |s| - |r| && s[a..a + |r|] == r && Blank(s[..a]) && Blank(s[a + |r|..])
  {
    var a := SkipSpace(s, 0);
    var b := TrimEnd(s, |s|);
    StripCuts(s);
    if a < b then
      assert s[a..a + (b - a)] == s[a..b];
      s[a..b]
    else
      assert s[..0] == [] && s[0..] == s && s[0..0] == [];
      []
  }

  // ---------------------------------------------------------------------
  // Substring occurrences

  /** `pat` occurs in `s` starting at index `i`: the reference definition. */
  ghost predicate OccursAt(s: string, pat: string, i: nat) {
    i + |pat| <= |s| && s[i..i + |pat|] == pat
  }

  /** Character-wise comparison of `s[i + j..]` with `pat[j..]`. */
  predicate MatchFrom(s: string, pat: string, i: nat, j: nat)
    requires j <= |pat|
    decreases |pat| - j
  {
    if j == |pat| then i + j <= |s|
    else i + j < |s| && s[i + j] == pat[j] && MatchFrom(s, pat, i, j + 1)
  }

  lemma {:induction false} MatchFromSpec(s: string, pat: string, i: nat, j: nat)
    requires j <= |pat|
    ensures MatchFrom(s, pat, i, j) <==> i + |pat| <= |s| && s[i + j..i + |pat|] == pat[j..]
    decreases |pat| - j
  {
    if j < |pat| {
      MatchFromSpec(s, pat, i, j + 1);
      if i + |pat| <= |s| {
        assert s[i + j..i + |pat|] == [s[i + j]] + s[i + j + 1..i + |pat|];
        assert pat[j..] == [pat[j]] + pat[j + 1..];
      }
    }
  }

  /** The executable occurrence test. */
  predicate MatchAt(s: string, pat: string, i: nat) {
    i + |pat| <= |s| && MatchFrom(s, pat, i, 0)
  }

  /** The executable occurrence test agrees with the reference one. */
  lemma MatchAtOccurs(s: string, pat: string, i: nat)
    ensures MatchAt(s, pat, i) <==> OccursAt(s, pat, i)
  {
    MatchFromSpec(s, pat, i, 0);
  }

  function ContainsFrom(s: string, pat: string, i: nat): (b: bool)
    requires i <= |s| + 1
    ensures b <==> exists k :: i <= k <= |s| && OccursAt(s, pat, k)
    decreases |s| + 1 - i
  {
    if i == |s| + 1 then false
    else
      MatchAtOccurs(s, pat, i);
      MatchAt(s, pat, i) || ContainsFrom(s, pat, i + 1)
  }

  /** Python's `pat in s`. */
  function Contains(s: string, pat: string): (b: bool)
    ensures b <==> exists k :: 0 <= k <= |s| && OccursAt(s, pat, k)
  {
    ContainsFrom(s, pat, 0)
  }

  /** Index of the first `c` at or after `i`, or `|s|` when there is none. */
  function IndexOf(s: string, c: char, i: nat): (k: nat)
    requires i <= |s|
    ensures i <= k <= |s|
    ensures k < |s| ==> s[k] == c
    ensures forall m :: i <= m < k ==> s[m] != c
    decreases |s| - i
  {
    if i == |s| || s[i] == c then i else IndexOf(s, c, i + 1)
  }

  // ---------------------------------------------------------------------
  // Splitting and joining on a separator

  /** The inverse of `Split`: Python's `sep.join(parts)`. */
  function Join(parts: seq<string>, sep: string): string {
    if |parts| == 0 then []
    else if |parts| == 1 then parts[0]
    else parts[0] + sep + Join(parts[1..], sep)
  }

  /** Scans `s` from `i`; the piece being collected began at `start`. */
  function SplitFrom(s: string, sep: string, start: nat, i: nat): (parts: seq<string>)
    requires sep != [] && start <= i <= |s|
    ensures |parts| >= 1
    decreases |s| - i
  {
    if i == |s| then [s[start..]]
    else if MatchAt(s, sep, i) then [s[start..i]] + SplitFrom(s, sep, i + |sep|, i + |sep|)
    else SplitFrom(s, sep, start, i + 1)
  }

  /** Python's `s.split(sep)` for a non-empty separator (an empty one raises
      in Python, and the interface only splits on "&&" and "\n"). */
  function Split(s: string, sep: string): (parts: seq<string>)
    requires sep != []
    ensures |parts| >= 1
  {
    SplitFrom(s, sep, 0, 0)
  }

  /** Python's `s.split(sep)[0]`. */
  function FirstPiece(s: string, sep: string): string
    requires sep != []
  {
    Split(s, sep)[0]
  }

  /** The first piece starts the joined string. */
  lemma JoinHead(parts: seq<string>, sep: string)
    requires |parts| >= 1
    ensures parts[0] <= Join(parts, sep)
  {
  }

  lemma JoinCons(head: string, tail: seq<string>, sep: string)
    requires |tail| >= 1
    ensures Join([head] + tail, sep) == head + sep + Join(tail, sep)
  {
    assert ([head] + tail)[1..] == tail;
  }

  lemma {:induction false} JoinSplitFrom(s: string, sep: string, start: nat, i: nat)
    requires sep != [] && start <= i <= |s|
    ensures Join(SplitFrom(s, sep, start, i), sep) == s[start..]
    decreases |s| - i
  {
    if i == |s| {
    } else if MatchAt(s, sep, i) {
      MatchAtOccurs(s, sep, i);
      var rest := SplitFrom(s, sep, i + |sep|, i + |sep|);
      assert SplitFrom(s, sep, start, i) == [s[start..i]] + rest;
      JoinSplitFrom(s, sep, i + |sep|, i + |sep|);
      JoinCons(s[start..i], rest, sep);
      assert s[i..i + |sep|] == sep;
      assert s[start..] == s[start..i] + s[i..i + |sep|] + s[i + |sep|..];
    } else {
      JoinSplitFrom(s, sep, start, i + 1);
    }
  }

  /** Joining the pieces of a split with the same separator gives back the
      original string. */
  lemma SplitJoin(s: string, sep: string)
    requires sep != []
    ensures Join(Split(s, sep), sep) == s
  {
    JoinSplitFrom(s, sep, 0, 0);
  }

  lemma {:induction false} SplitFromPiecesFree(s: string, sep: string, start: nat, i: nat)
    requires sep != [] && start <= i <= |s|
    requires forall k :: start <= k < i ==> !OccursAt(s, sep, k)
    ensures forall n :: 0 <= n < |SplitFrom(s, sep, start, i)| ==> !Contains(SplitFrom(s, sep, start, i)[n], sep)
    decreases |s| - i
  {
    var parts := SplitFrom(s, sep, start, i);
    if i == |s| {
      PieceFree(s, sep, start, |s|);
      assert s[start..] == s[start..|s|];
    } else if MatchAt(s, sep, i) {
      PieceFree(s, sep, start, i);
      SplitFromPiecesFree(s, sep, i + |sep|, i + |sep|);
    } else {
      MatchAtOccurs(s, sep, i);
      SplitFromPiecesFree(s, sep, start, i + 1);
    }
  }

  lemma PieceFree(s: string, sep: string, start: nat, end: nat)
    requires sep != [] && start <= end <= |s|
    requires forall k :: start <= k < end ==> !OccursAt(s, sep, k)
    ensures !Contains(s[start..end], sep)
  {
    var piece := s[start..end];
    forall k | 0 <= k <= |piece| && OccursAt(piece, sep, k)
      ensures false
    {
      assert k + |sep| <= |piece|;
      var whole := s[start + k..start + k + |sep|];
      var part := piece[k..k + |sep|];
      forall m | 0 <= m < |sep|
        ensures whole[m] == part[m]
      {
        assert piece[k + m] == s[start + k + m];
      }
      assert whole == part;
      assert OccursAt(s, sep, start + k);
    }
  }

  /** No piece of a split contains the separator. */
  lemma SplitPiecesFree(s: string, sep: string)
    requires sep != []
    ensures forall n :: 0 <= n < |Split(s, sep)| ==> !Contains(Split(s, sep)[n], sep)
  {
    SplitFromPiecesFree(s, sep, 0, 0);
  }

  /** A pattern found in either half is found in the whole. */
  lemma ContainsAppend(a: string, b: string, pat: string)
    ensures Contains(a, pat) || Contains(b, pat) ==> Contains(a + b, pat)
  {
    if Contains(a, pat) {
      var k :| 0 <= k <= |a| && OccursAt(a, pat, k);
      assert (a + b)[k..k + |pat|] == a[k..k + |pat|];
      assert OccursAt(a + b, pat, k);
    } else if Contains(b, pat) {
      var k :| 0 <= k <= |b| && OccursAt(b, pat, k);
      assert (a + b)[|a| + k..|a| + k + |pat|] == b[k..k + |pat|];
      assert OccursAt(a + b, pat, |a| + k);
    }
  }

  /** A pattern found in one piece is found in the joined string. */
  lemma {:induction false} ContainsJoin(parts: seq<string>, sep: string, pat: string, n: nat)
    requires n < |parts| && Contains(parts[n], pat)
    ensures Contains(Join(parts, sep), pat)
    decreases |parts|
  {
    if |parts| > 1 {
      assert Join(parts, sep) == parts[0] + (sep + Join(parts[1..], sep));
      if n == 0 {
        ContainsAppend(parts[0], sep + Join(parts[1..], sep), pat);
      } else {
        ContainsJoin(parts[1..], sep, pat, n - 1);
        ContainsAppend(sep, Join(parts[1..], sep), pat);
        ContainsAppend(parts[0], sep + Join(parts[1..], sep), pat);
      }
    }
  }

  /** A pattern absent from a string is absent from every piece of its
      split. */
  lemma SplitKeepsAbsent(s: string, sep: string, pat: string)
    requires sep != [] && !Contains(s, pat)
    ensures forall n :: 0 <= n < |Split(s, sep)| ==> !Contains(Split(s, sep)[n], pat)
  {
    SplitJoin(s, sep);
    forall n | 0 <= n < |Split(s, sep)|
      ensures !Contains(Split(s, sep)[n], pat)
    {
      if Contains(Split(s, sep)[n], pat) {
        ContainsJoin(Split(s, sep), sep, pat, n);
      }
    }
  }

  /** `piece + sep` holds its first occurrence of `sep` at its end: a
      piece that stops at the leftmost separator after its start. */
  ghost predicate EndsAtFirst(piece: string, sep: string) {
    forall k :: 0 <= k < |piece| ==> !OccursAt(piece + sep, sep, k)
  }

  lemma PieceEndsAtFirst(s: string, sep: string, start: nat, i: nat)
    requires sep != [] && start <= i && i + |sep| <= |s| && s[i..i + |sep|] == sep
    requires forall k :: start <= k < i ==> !OccursAt(s, sep, k)
    ensures EndsAtFirst(s[start..i], sep)
  {
    var piece := s[start..i];
    var t := piece + sep;
    assert t == s[start..i + |sep|];
    forall k | 0 <= k < |piece| && OccursAt(t, sep, k)
      ensures false
    {
      var part := t[k..k + |sep|];
      var whole := s[start + k..start + k + |sep|];
      forall m | 0 <= m < |sep|
        ensures whole[m] == part[m]
      {
        assert t[k + m] == s[start + k + m];
      }
      assert whole == part;
      assert OccursAt(s, sep, start + k);
    }
  }

  lemma {:induction false} SplitFromLeftmost(s: string, sep: string, start: nat, i: nat)
    requires sep != [] && start <= i <= |s|
    requires forall k :: start <= k < i ==> !OccursAt(s, sep, k)
    ensures forall n :: 0 <= n < |SplitFrom(s, sep, start, i)| - 1 ==> EndsAtFirst(SplitFrom(s, sep, start, i)[n], sep)
    decreases |s| - i
  {
    if i == |s| {
    } else if MatchAt(s, sep, i) {
      MatchAtOccurs(s, sep, i);
      PieceEndsAtFirst(s, sep, start, i);
      var rest := SplitFrom(s, sep, i + |sep|, i + |sep|);
      assert SplitFrom(s, sep, start, i) == [s[start..i]] + rest;
      SplitFromLeftmost(s, sep, i + |sep|, i + |sep|);
    } else {
      MatchAtOccurs(s, sep, i);
      SplitFromLeftmost(s, sep, start, i + 1);
    }
  }

  /** Every piece but the last stops at the leftmost separator after its
      start, as Python's scan does: together with `SplitJoin` and
      `SplitPiecesFree` this fixes the pieces, so "a&&&b" splits at "&&"
      into "a" and "&b", never into "a&" and "b". */
  lemma SplitLeftmost(s: string, sep: string)
    requires sep != []
    ensures forall n :: 0 <= n < |Split(s, sep)| - 1 ==> EndsAtFirst(Split(s, sep)[n], sep)
  {
    SplitFromLeftmost(s, sep, 0, 0);
  }

  // ---------------------------------------------------------------------
  // Replacement

  function ReplaceFrom(s: string, pat: string, rep: string, i: nat): string
    requires pat != [] && i <= |s|
    decreases |s| - i
  {
    if i == |s| then []
    else if MatchAt(s, pat, i) then rep + ReplaceFrom(s, pat, rep, i + |pat|)
    else [s[i]] + ReplaceFrom(s, pat, rep, i + 1)
  }

  /** Python's `s.replace("", rep)`: `rep` before every character and at the end. */
  function Interleave(s: string, rep: string): (r: string)
    ensures |r| == |s| + (|s| + 1) * |rep|
  {
    if |s| == 0 then rep else rep + [s[0]] + Interleave(s[1..], rep)
  }

  /** Python's `s.replace(pat, rep)`: every occurrence, left to right,
      non-overlapping. */
  function Replace(s: string, pat: string, rep: string): string {
    if pat == [] then Interleave(s, rep) else ReplaceFrom(s, pat, rep, 0)
  }

  lemma {:induction false} ReplaceFromSplitFrom(s: string, pat: string, rep: string, start: nat, i: nat)
    requires pat != [] && start <= i <= |s|
    ensures s[start..i] + ReplaceFrom(s, pat, rep, i) == Join(SplitFrom(s, pat, start, i), rep)
    decreases |s| - i
  {
    if i == |s| {
      assert ReplaceFrom(s, pat, rep, i) == [];
      assert SplitFrom(s, pat, start, i) == [s[start..]];
    } else if MatchAt(s, pat, i) {
      ReplaceFromSplitFrom(s, pat, rep, i + |pat|, i + |pat|);
      ReplaceSplitMatchStep(s, pat, rep, start, i);
    } else {
      ReplaceFromSplitFrom(s, pat, rep, start, i + 1);
      ReplaceSplitMissStep(s, pat, rep, start, i);
    }
  }

  lemma ReplaceSplitMatchStep(s: string, pat: string, rep: string, start: nat, i: nat)
    requires pat != [] && start <= i < |s| && MatchAt(s, pat, i)
    requires s[i + |pat|..i + |pat|] + ReplaceFrom(s, pat, rep, i + |pat|)
          == Join(SplitFrom(s, pat, i + |pat|, i + |pat|), rep)
    ensures s[start..i] + ReplaceFrom(s, pat, rep, i) == Join(SplitFrom(s, pat, start, i), rep)
  {
    var j := i + |pat|;
    SplitAtMatch(s, pat, rep, start, i);
    ReplaceAtMatch(s, pat, rep, i);
    PieceAfterMatch(s[start..i], rep, s[j..j], ReplaceFrom(s, pat, rep, j),
      Join(SplitFrom(s, pat, j, j), rep), ReplaceFrom(s, pat, rep, i), Join(SplitFrom(s, pat, start, i), rep));
  }

  /** The equational step of `ReplaceSplitMatchStep`, on plain strings. */
  lemma PieceAfterMatch(head: string, rep: string, empty: string, rest: string, tail: string, replaced: string, joined: string)
    requires empty == [] && empty + rest == tail
    requires replaced == rep + rest && joined == head + rep + tail
    ensures head + replaced == joined
  {
    assert empty + rest == rest;
  }

  lemma ReplaceAtMatch(s: string, pat: string, rep: string, i: nat)
    requires pat != [] && i < |s| && MatchAt(s, pat, i)
    ensures ReplaceFrom(s, pat, rep, i) == rep + ReplaceFrom(s, pat, rep, i + |pat|)
  {
  }

  /** A match closes the current piece; the next one starts after it. */
  lemma SplitAtMatch(s: string, pat: string, rep: string, start: nat, i: nat)
    requires pat != [] && start <= i < |s| && MatchAt(s, pat, i)
    ensures Join(SplitFrom(s, pat, start, i), rep)
         == s[start..i] + rep + Join(SplitFrom(s, pat, i + |pat|, i + |pat|), rep)
  {
    var tail := SplitFrom(s, pat, i + |pat|, i + |pat|);
    assert SplitFrom(s, pat, start, i) == [s[start..i]] + tail;
    JoinCons(s[start..i], tail, rep);
  }

  lemma ReplaceSplitMissStep(s: string, pat: string, rep: string, start: nat, i: nat)
    requires pat != [] && start <= i < |s| && !MatchAt(s, pat, i)
    requires s[start..i + 1] + ReplaceFrom(s, pat, rep, i + 1) == Join(SplitFrom(s, pat, start, i + 1), rep)
    ensures s[start..i] + ReplaceFrom(s, pat, rep, i) == Join(SplitFrom(s, pat, start, i), rep)
  {
    var rest := ReplaceFrom(s, pat, rep, i + 1);
    assert SplitFrom(s, pat, start, i) == SplitFrom(s, pat, start, i + 1);
    assert ReplaceFrom(s, pat, rep, i) == [s[i]] + rest;
    assert s[start..i] + ([s[i]] + rest) == s[start..i + 1] + rest;
  }

  /** Replacing is splitting on the pattern and joining with the
      replacement. */
  lemma ReplaceIsSplitJoin(s: string, pat: string, rep: string)
    requires pat != []
    ensures Replace(s, pat, rep) == Join(Split(s, pat), rep)
  {
    ReplaceFromSplitFrom(s, pat, rep, 0, 0);
  }

  /** Replacing a pattern by itself changes nothing. */
  lemma ReplaceSelf(s: string, pat: string)
    requires pat != []
    ensures Replace(s, pat, pat) == s
  {
    ReplaceIsSplitJoin(s, pat, pat);
    SplitJoin(s, pat);
  }

  /** Without an occurrence of the pattern, replacing changes nothing. */
  lemma ReplaceAbsent(s: string, pat: string, rep: string)
    requires pat != [] && !Contains(s, pat)
    ensures Replace(s, pat, rep) == s
  {
    ReplaceIsSplitJoin(s, pat, rep);
    SplitAbsent(s, pat, 0, 0);
  }

  lemma {:induction false} SplitAbsent(s: string, sep: string, start: nat, i: nat)
    requires sep != [] && start <= i <= |s|
    requires forall k :: i <= k <= |s| ==> !OccursAt(s, sep, k)
    ensures SplitFrom(s, sep, start, i) == [s[start..]]
    decreases |s| - i
  {
    if i < |s| {
      MatchAtOccurs(s, sep, i);
      SplitAbsent(s, sep, start, i + 1);
    }
  }

  /** A string without the separator splits into itself alone. */
  lemma SplitWhole(s: string, sep: string)
    requires sep != [] && !Contains(s, sep)
    ensures Split(s, sep) == [s]
  {
    SplitAbsent(s, sep, 0, 0);
  }

  /** The first piece of a split is a whole piece: splitting it again
      gives it back alone. */
  lemma FirstPieceWhole(s: string, sep: string)
    requires sep != []
    ensures Split(FirstPiece(s, sep), sep) == [FirstPiece(s, sep)]
  {
    SplitPiecesFree(s, sep);
    SplitWhole(FirstPiece(s, sep), sep);
  }

  /** Python's `s.split(sep)[0]`: the whole string when the separator does
      not occur in it, and otherwise the text before the leftmost
      separator, which follows it in `s`. */
  lemma FirstPieceSpec(s: string, sep: string)
    requires sep != []
    ensures !Contains(s, sep) ==> FirstPiece(s, sep) == s
    ensures Contains(s, sep) ==> FirstPiece(s, sep) + sep <= s && EndsAtFirst(FirstPiece(s, sep), sep)
  {
    var parts := Split(s, sep);
    if !Contains(s, sep) {
      SplitWhole(s, sep);
    } else {
      SplitJoin(s, sep);
      SplitPiecesFree(s, sep);
      SplitLeftmost(s, sep);
      if |parts| == 1 {
        assert false;
      }
      assert Join(parts, sep) == parts[0] + sep + Join(parts[1..], sep);
    }
  }

  // ---------------------------------------------------------------------
  // Splitting and replacing around a separator

  /** `pat` cannot start where `s` lacks its first character. */
  lemma NoMatchWithoutHead(s: string, pat: string, i: nat)
    requires pat != [] && i < |s| && s[i] != pat[0]
    ensures !MatchAt(s, pat, i)
  {
  }

  /** Matching inside the left part of a concatenation ignores the right. */
  lemma {:induction false} MatchFromPrefix(x: string, y: string, pat: string, i: nat, j: nat)
    requires j <= |pat| && i + |pat| <= |x|
    ensures MatchFrom(x + y, pat, i, j) <==> MatchFrom(x, pat, i, j)
    decreases |pat| - j
  {
    if j < |pat| {
      MatchFromPrefix(x, y, pat, i, j + 1);
    }
  }

  /** Matching inside the right part of a concatenation ignores the left. */
  lemma {:induction false} MatchFromShift(x: string, y: string, pat: string, k: nat, j: nat)
    requires j <= |pat|
    ensures MatchFrom(x + y, pat, |x| + k, j) <==> MatchFrom(y, pat, k, j)
    decreases |pat| - j
  {
    if j < |pat| {
      MatchFromShift(x, y, pat, k, j + 1);
    }
  }

  lemma MatchShift(x: string, y: string, pat: string, k: nat)
    ensures MatchAt(x + y, pat, |x| + k) <==> MatchAt(y, pat, k)
  {
    MatchFromShift(x, y, pat, k, 0);
  }

  /** A string matches itself at the start of any extension. */
  lemma MatchSelf(pat: string, y: string)
    ensures MatchAt(pat + y, pat, 0)
  {
    MatchFromSpec(pat, pat, 0, 0);
    MatchFromPrefix(pat, y, pat, 0, 0);
  }

  /** Replacing over a stretch where the pattern's first character is
      absent copies the stretch. */
  lemma {:induction false} ReplaceSkip(s: string, pat: string, rep: string, i: nat, j: nat)
    requires pat != [] && i <= j <= |s|
    requires forall k :: i <= k < j ==> s[k] != pat[0]
    ensures ReplaceFrom(s, pat, rep, i) == s[i..j] + ReplaceFrom(s, pat, rep, j)
    decreases j - i
  {
    if i < j {
      ReplaceSkip(s, pat, rep, i + 1, j);
      ReplaceSkipStep(s, pat, rep, i, j);
    }
  }

  lemma ReplaceSkipStep(s: string, pat: string, rep: string, i: nat, j: nat)
    requires pat != [] && i < j <= |s| && s[i] != pat[0]
    requires ReplaceFrom(s, pat, rep, i + 1) == s[i + 1..j] + ReplaceFrom(s, pat, rep, j)
    ensures ReplaceFrom(s, pat, rep, i) == s[i..j] + ReplaceFrom(s, pat, rep, j)
  {
    NoMatchWithoutHead(s, pat, i);
    assert ReplaceFrom(s, pat, rep, i) == [s[i]] + ReplaceFrom(s, pat, rep, i + 1);
    assert s[i..j] == [s[i]] + s[i + 1..j];
  }

  /** Splitting over a stretch where the separator's first character is
      absent extends the current piece. */
  lemma {:induction false} SplitSkip(s: string, sep: string, start: nat, i: nat, j: nat)
    requires sep != [] && start <= i <= j <= |s|
    requires forall k :: i <= k < j ==> s[k] != sep[0]
    ensures SplitFrom(s, sep, start, i) == SplitFrom(s, sep, start, j)
    decreases j - i
  {
    if i < j {
      NoMatchWithoutHead(s, sep, i);
      SplitSkip(s, sep, start, i + 1, j);
    }
  }

  /** Replacing in the right part of a concatenation ignores the left. */
  lemma {:induction false} ReplaceShift(x: string, y: string, pat: string, rep: string, j: nat)
    requires pat != [] && j <= |y|
    ensures ReplaceFrom(x + y, pat, rep, |x| + j) == ReplaceFrom(y, pat, rep, j)
    decreases |y| - j
  {
    if j < |y| {
      MatchShift(x, y, pat, j);
      if MatchAt(y, pat, j) {
        ReplaceShift(x, y, pat, rep, j + |pat|);
      } else {
        ReplaceShift(x, y, pat, rep, j + 1);
      }
    }
  }

  /** Splitting in the right part of a concatenation ignores the left. */
  lemma {:induction false} SplitShift(x: string, y: string, sep: string, start: nat, j: nat)
    requires sep != [] && start <= j <= |y|
    ensures SplitFrom(x + y, sep, |x| + start, |x| + j) == SplitFrom(y, sep, start, j)
    decreases |y| - j
  {
    var s := x + y;
    if j == |y| {
      assert s[|x| + start..] == y[start..];
    } else {
      MatchShift(x, y, sep, j);
      if MatchAt(y, sep, j) {
        var n := j + |sep|;
        SplitShift(x, y, sep, n, n);
        assert s[|x| + start..|x| + j] == y[start..j];
        assert SplitFrom(s, sep, |x| + start, |x| + j) == [s[|x| + start..|x| + j]] + SplitFrom(s, sep, |x| + n, |x| + n);
      } else {
        SplitShift(x, y, sep, start, j + 1);
        assert SplitFrom(s, sep, |x| + start, |x| + j) == SplitFrom(s, sep, |x| + start, |x| + j + 1);
      }
    }
  }

  /** Before `|x|`, a match in `x + y` that stays inside `x` is a match in
      `x`, and conversely. */
  lemma PrefixMatchAgrees(x: string, y: string, pat: string, i: nat)
    requires pat != [] && i < |x|
    requires MatchAt(x + y, pat, i) ==> i + |pat| <= |x|
    ensures MatchAt(x + y, pat, i) <==> MatchAt(x, pat, i)
  {
    if i + |pat| <= |x| {
      MatchFromPrefix(x, y, pat, i, 0);
    } else {
      MatchAtOccurs(x, pat, i);
    }
  }

  /** Replacing in `x + y` from `i` is replacing in `x` from `i`, followed
      by replacing in `x + y` from `|x|`. */
  predicate PrefixReplaces(x: string, y: string, pat: string, rep: string, i: nat)
    requires pat != [] && i <= |x|
  {
    ReplaceFrom(x + y, pat, rep, i) == ReplaceFrom(x, pat, rep, i) + ReplaceFrom(x + y, pat, rep, |x|)
  }

  lemma PrefixMatchStep(x: string, y: string, pat: string, rep: string, i: nat)
    requires pat != [] && i + |pat| <= |x| && MatchAt(x, pat, i) && MatchAt(x + y, pat, i)
    requires PrefixReplaces(x, y, pat, rep, i + |pat|)
    ensures PrefixReplaces(x, y, pat, rep, i)
  {
    assert ReplaceFrom(x + y, pat, rep, i) == rep + ReplaceFrom(x + y, pat, rep, i + |pat|);
    assert ReplaceFrom(x, pat, rep, i) == rep + ReplaceFrom(x, pat, rep, i + |pat|);
  }

  lemma PrefixMissStep(x: string, y: string, pat: string, rep: string, i: nat)
    requires pat != [] && i < |x| && !MatchAt(x, pat, i) && !MatchAt(x + y, pat, i)
    requires PrefixReplaces(x, y, pat, rep, i + 1)
    ensures PrefixReplaces(x, y, pat, rep, i)
  {
    assert (x + y)[i] == x[i];
    assert ReplaceFrom(x + y, pat, rep, i) == [x[i]] + ReplaceFrom(x + y, pat, rep, i + 1);
    assert ReplaceFrom(x, pat, rep, i) == [x[i]] + ReplaceFrom(x, pat, rep, i + 1);
  }

  /** Replacing in a concatenation whose left part no occurrence crosses:
      the left part is replaced on its own. */
  lemma {:induction false} ReplacePrefix(x: string, y: string, pat: string, rep: string, i: nat)
    requires pat != [] && i <= |x|
    requires forall k :: i <= k < |x| && MatchAt(x + y, pat, k) ==> k + |pat| <= |x|
    ensures ReplaceFrom(x + y, pat, rep, i) == ReplaceFrom(x, pat, rep, i) + ReplaceFrom(x + y, pat, rep, |x|)
    decreases |x| - i
  {
    if i < |x| {
      PrefixMatchAgrees(x, y, pat, i);
      if MatchAt(x, pat, i) {
        ReplacePrefix(x, y, pat, rep, i + |pat|);
        PrefixMatchStep(x, y, pat, rep, i);
      } else {
        ReplacePrefix(x, y, pat, rep, i + 1);
        PrefixMissStep(x, y, pat, rep, i);
      }
    }
  }

  /** Every character an occurrence covers is a character of the pattern. */
  lemma OccursCovers(s: string, pat: string, k: nat, m: nat)
    requires OccursAt(s, pat, k)
    ensures k <= m < k + |pat| ==> s[m] in pat
  {
    if k <= m < k + |pat| {
      assert s[k..k + |pat|][m - k] == s[m];
    }
  }

  /** Splitting `a + sep + b` where `a` lacks the separator's first
      character: `a` is the first piece and `b` is split on. */
  lemma SplitAround(a: string, sep: string, b: string)
    requires sep != [] && sep[0] !in a
    ensures Split(a + sep + b, sep) == [a] + Split(b, sep)
  {
    var s := a + sep + b;
    assert s == a + (sep + b);
    assert s == (a + sep) + b;
    forall k | 0 <= k < |a| ensures s[k] != sep[0] {
      assert s[k] == a[k];
    }
    SplitSkip(s, sep, 0, 0, |a|);
    MatchSelf(sep, b);
    MatchShift(a, sep + b, sep, 0);
    assert s[0..|a|] == a;
    SplitShift(a + sep, b, sep, 0, 0);
  }

  /** A string without the separator's first character is a single piece. */
  lemma SplitAlone(s: string, sep: string)
    requires sep != [] && sep[0] !in s
    ensures Split(s, sep) == [s]
  {
    forall k | 0 <= k < |s| ensures s[k] != sep[0] {
      assert s[k] in s;
    }
    SplitSkip(s, sep, 0, 0, |s|);
  }

  /** A match that starts before the separator ends before it, when the
      pattern shares no character with the separator. */
  lemma MatchesStayLeft(a: string, sep: string, b: string, pat: string)
    requires pat != [] && sep != []
    requires forall c :: c in sep ==> c !in pat
    ensures forall k :: 0 <= k < |a| && MatchAt(a + sep + b, pat, k) ==> k + |pat| <= |a|
  {
    var s := a + sep + b;
    forall k | 0 <= k < |a| && MatchAt(s, pat, k)
      ensures k + |pat| <= |a|
    {
      MatchAtOccurs(s, pat, k);
      OccursCovers(s, pat, k, |a|);
      assert s[|a|] == sep[0] && sep[0] in sep;
    }
  }

  /** No match starts inside the separator. */
  lemma SeparatorSkipped(a: string, sep: string, b: string, pat: string)
    requires pat != []
    requires forall c :: c in sep ==> c !in pat
    ensures forall k :: |a| <= k < |a| + |sep| ==> (a + sep + b)[k] != pat[0]
  {
    var s := a + sep + b;
    forall k | |a| <= k < |a| + |sep| ensures s[k] != pat[0] {
      assert s[k] == sep[k - |a|];
      assert sep[k - |a|] in sep;
    }
  }

  /** Replacing in `a + sep + b` where `sep` shares no character with the
      pattern: each side is replaced on its own and `sep` is kept. */
  lemma ReplaceAround(a: string, sep: string, b: string, pat: string, rep: string)
    requires pat != [] && sep != []
    requires forall c :: c in sep ==> c !in pat
    ensures Replace(a + sep + b, pat, rep) == Replace(a, pat, rep) + sep + Replace(b, pat, rep)
  {
    var s := a + sep + b;
    AroundLeft(a, sep, b, pat, rep);
    AroundSeparator(a, sep, b, pat, rep);
    AroundRight(a, sep, b, pat, rep);
    ThreeParts(ReplaceFrom(s, pat, rep, 0), ReplaceFrom(a, pat, rep, 0), ReplaceFrom(s, pat, rep, |a|),
      sep, ReplaceFrom(s, pat, rep, |a| + |sep|), ReplaceFrom(b, pat, rep, 0));
  }

  /** The part of `ReplaceAround` before the separator. */
  lemma AroundLeft(a: string, sep: string, b: string, pat: string, rep: string)
    requires pat != [] && sep != []
    requires forall c :: c in sep ==> c !in pat
    ensures ReplaceFrom(a + sep + b, pat, rep, 0) == ReplaceFrom(a, pat, rep, 0) + ReplaceFrom(a + sep + b, pat, rep, |a|)
  {
    assert a + sep + b == a + (sep + b);
    MatchesStayLeft(a, sep, b, pat);
    ReplacePrefix(a, sep + b, pat, rep, 0);
  }

  /** The separator of `ReplaceAround` is copied. */
  lemma AroundSeparator(a: string, sep: string, b: string, pat: string, rep: string)
    requires pat != [] && sep != []
    requires forall c :: c in sep ==> c !in pat
    ensures ReplaceFrom(a + sep + b, pat, rep, |a|) == sep + ReplaceFrom(a + sep + b, pat, rep, |a| + |sep|)
  {
    var s := a + sep + b;
    SeparatorSkipped(a, sep, b, pat);
    ReplaceSkip(s, pat, rep, |a|, |a| + |sep|);
    assert s[|a|..|a| + |sep|] == sep;
  }

  /** The part of `ReplaceAround` after the separator. */
  lemma AroundRight(a: string, sep: string, b: string, pat: string, rep: string)
    requires pat != []
    ensures ReplaceFrom(a + sep + b, pat, rep, |a| + |sep|) == ReplaceFrom(b, pat, rep, 0)
  {
    ReplaceShift(a + sep, b, pat, rep, 0);
  }

  /** The equational step of `ReplaceAround`, on plain strings. */
  lemma ThreeParts(whole: string, left: string, fromSep: string, sep: string, afterSep: string, right: string)
    requires whole == left + fromSep && fromSep == sep + afterSep && afterSep == right
    ensures whole == left + sep + right
  {
  }

  /** Replacing in a string that starts with the pattern. */
  lemma ReplaceHead(pat: string, y: string, rep: string)
    requires pat != []
    ensures Replace(pat + y, pat, rep) == rep + Replace(y, pat, rep)
  {
    MatchSelf(pat, y);
    ReplaceShift(pat, y, pat, rep, 0);
  }

  /** Replacing in a string that ends with the pattern and has the
      pattern's first character nowhere before it. */
  lemma ReplaceTail(x: string, pat: string, rep: string)
    requires pat != [] && pat[0] !in x
    ensures Replace(x + pat, pat, rep) == x + rep
  {
    var s := x + pat;
    forall k | 0 <= k < |x| ensures s[k] != pat[0] {
      assert s[k] == x[k];
    }
    ReplaceSkip(s, pat, rep, 0, |x|);
    MatchSelf(pat, []);
    assert pat + [] == pat;
    MatchShift(x, pat, pat, 0);
    assert s[0..|x|] == x;
  }

  /** A pattern with a character that `s` lacks does not occur in `s`. */
  lemma NotContains(s: string, pat: string, c: char)
    requires c in pat && c !in s
    ensures !Contains(s, pat)
  {

  }

  /** Replacing a pattern that does not occur changes nothing. */
  lemma ReplaceMissing(s: string, pat: string, rep: string, c: char)
    requires pat != [] && c in pat && c !in s
    ensures Replace(s, pat, rep) == s
  {
    NotContains(s, pat, c);
    ReplaceAbsent(s, pat, rep);
  }

  // ---------------------------------------------------------------------
  // Whitespace tokenisation

  /** The characters `shlex.split` separates words at: space, tab, carriage
      return and newline. */
  predicate IsShellSpace(c: char) {
    c == ' ' || c == '\t' || c == '\r' || c == '\n'
  }

  /** The string holds nothing but word separators. */
  predicate ShellBlank(s: string) {
    forall i :: 0 <= i < |s| ==> IsShellSpace(s[i])
  }

  /** End of the word that starts at `i`. */
  function WordEnd(s: string, i: nat): (e: nat)
    requires i <= |s|
    ensures i <= e <= |s|
    ensures forall k :: i <= k < e ==> !IsShellSpace(s[k])
    ensures e < |s| ==> IsShellSpace(s[e])
    decreases |s| - i
  {
    if i == |s| || IsShellSpace(s[i]) then i else WordEnd(s, i + 1)
  }

  function WordsFrom(s: string, i: nat): (words: seq<string>)
    requires i <= |s|
    ensures forall n :: 0 <= n < |words| ==> words[n] != [] && !HasSeparator(words[n])
    ensures words == [] <==> ShellBlank(s[i..])
    decreases |s| - i
  {
    if i == |s| then []
    else if IsShellSpace(s[i]) then
      var rest := WordsFrom(s, i + 1);
      assert s[i..] == [s[i]] + s[i + 1..];
      rest
    else
      var e := WordEnd(s, i);
      [s[i..e]] + WordsFrom(s, e)
  }

  /** Some character of `s` is a word separator. */
  predicate HasSeparator(s: string) {
    exists k :: 0 <= k < |s| && IsShellSpace(s[k])
  }

  /** `shlex.split(s)` for a clause without quotes or backslashes: the
      maximal runs of characters other than word separators, in order. */
  function Words(s: string): (words: seq<string>)
    ensures words == [] <==> ShellBlank(s)
    ensures forall n :: 0 <= n < |words| ==> words[n] != [] && !HasSeparator(words[n])
  {
    WordsFrom(s, 0)
  }

  /** Concatenation of a list of strings. */
  function Concat(parts: seq<string>): string {
    if |parts| == 0 then [] else parts[0] + Concat(parts[1..])
  }

  /** `s` with every word separator removed. */
  function Squeeze(s: string): string {
    if |s| == 0 then [] else (if IsShellSpace(s[0]) then [] else [s[0]]) + Squeeze(s[1..])
  }

  lemma SqueezeAppend(a: string, b: string)
    ensures Squeeze(a + b) == Squeeze(a) + Squeeze(b)
  {
    if |a| > 0 {
      assert (a + b)[0] == a[0];
      assert (a + b)[1..] == a[1..] + b;
      SqueezeAppend(a[1..], b);
    } else {
      assert a + b == b;
    }
  }

  lemma SqueezeWord(s: string, i: nat, e: nat)
    requires i <= e <= |s|
    requires forall k :: i <= k < e ==> !IsShellSpace(s[k])
    ensures Squeeze(s[i..e]) == s[i..e]
    decreases e - i
  {
    if i < e {
      assert s[i..e][1..] == s[i + 1..e];
      SqueezeWord(s, i + 1, e);
    }
  }

  lemma {:induction false} WordsFromSqueeze(s: string, i: nat)
    requires i <= |s|
    ensures Concat(WordsFrom(s, i)) == Squeeze(s[i..])
    decreases |s| - i
  {
    if i == |s| {
    } else if IsShellSpace(s[i]) {
      WordsFromSqueeze(s, i + 1);
      assert WordsFrom(s, i) == WordsFrom(s, i + 1);
      assert s[i..] == [s[i]] + s[i + 1..];
      SqueezeAppend([s[i]], s[i + 1..]);
      assert Squeeze([s[i]]) == [];
    } else {
      var e := WordEnd(s, i);
      var rest := WordsFrom(s, e);
      WordsFromSqueeze(s, e);
      assert WordsFrom(s, i) == [s[i..e]] + rest;
      assert ([s[i..e]] + rest)[1..] == rest;
      assert Concat(WordsFrom(s, i)) == s[i..e] + Concat(rest);
      assert s[i..] == s[i..e] + s[e..];
      SqueezeAppend(s[i..e], s[e..]);
      SqueezeWord(s, i, e);
    }
  }

  /** The words, put back together, are the string without its separators. */
  lemma WordsSqueeze(s: string)
    ensures Concat(Words(s)) == Squeeze(s)
  {
    WordsFromSqueeze(s, 0);
  }

  /** A word starts at `b`: a non-separator at the start of `s` or right
      after a separator. */
  predicate WordStart(s: string, b: nat) {
    b < |s| && !IsShellSpace(s[b]) && (b == 0 || IsShellSpace(s[b - 1]))
  }

  /** How many words start before position `b`. */
  function WordsBefore(s: string, b: nat): nat
    requires b <= |s|
  {
    if b == 0 then 0 else WordsBefore(s, b - 1) + (if WordStart(s, b - 1) then 1 else 0)
  }

  /** Inside a word no other word starts. */
  lemma {:induction false} WordsBeforeRun(s: string, i: nat, e: nat)
    requires i < e <= |s| && WordStart(s, i)
    requires forall k :: i <= k < e ==> !IsShellSpace(s[k])
    ensures WordsBefore(s, e) == WordsBefore(s, i) + 1
    decreases e - i
  {
    if e > i + 1 {
      WordsBeforeRun(s, i, e - 1);
      assert !WordStart(s, e - 1);
    }
  }

  lemma {:induction false} WordsFromCount(s: string, i: nat)
    requires i <= |s|
    requires i == 0 || i == |s| || IsShellSpace(s[i - 1]) || IsShellSpace(s[i])
    ensures WordsBefore(s, i) + |WordsFrom(s, i)| == WordsBefore(s, |s|)
    decreases |s| - i
  {
    if i == |s| {
    } else if IsShellSpace(s[i]) {
      WordsFromCount(s, i + 1);
      assert WordsFrom(s, i) == WordsFrom(s, i + 1);
    } else {
      var e := WordEnd(s, i);
      assert WordsFrom(s, i) == [s[i..e]] + WordsFrom(s, e);
      WordsFromCount(s, e);
      WordsBeforeRun(s, i, e);
    }
  }

  /** The next word start after a word lies beyond its end. */
  lemma WordBeyondRun(s: string, i: nat, e: nat, b: nat)
    requires i < b && WordStart(s, b) && i <= e <= |s|
    requires forall k :: i <= k < e ==> !IsShellSpace(s[k])
    ensures e <= b
  {
  }

  /** A separator neither starts a word nor yields one. */
  lemma WordsFromSpaceStep(s: string, i: nat)
    requires i < |s| && IsShellSpace(s[i])
    ensures WordsFrom(s, i) == WordsFrom(s, i + 1)
    ensures WordsBefore(s, i + 1) == WordsBefore(s, i)
  {
  }

  /** A word start yields the word up to its end, and counts once. */
  lemma WordsFromWordStep(s: string, i: nat)
    requires i < |s| && WordStart(s, i)
    ensures WordsFrom(s, i) == [s[i..WordEnd(s, i)]] + WordsFrom(s, WordEnd(s, i))
    ensures WordsBefore(s, WordEnd(s, i)) == WordsBefore(s, i) + 1
  {
    WordsBeforeRun(s, i, WordEnd(s, i));
  }

  /** The word starting at `b` is the word of `WordsFrom(s, i)` numbered by
      how many words start between `i` and `b`. */
  predicate RunIndexed(s: string, i: nat, b: nat)
    requires i <= b < |s|
  {
    var n := WordsBefore(s, b) - WordsBefore(s, i);
    && WordsBefore(s, i) <= WordsBefore(s, b)
    && 0 <= n < |WordsFrom(s, i)|
    && WordsFrom(s, i)[n] == s[b..WordEnd(s, b)]
  }

  lemma SpaceCase(s: string, i: nat, b: nat)
    requires i < b < |s| && IsShellSpace(s[i])
    requires RunIndexed(s, i + 1, b)
    ensures RunIndexed(s, i, b)
  {
    WordsFromSpaceStep(s, i);
  }

  lemma WordCase(s: string, i: nat, b: nat)
    requires i < |s| && WordStart(s, i) && WordEnd(s, i) <= b < |s|
    requires RunIndexed(s, WordEnd(s, i), b)
    ensures RunIndexed(s, i, b)
  {
    var e := WordEnd(s, i);
    var rest := WordsFrom(s, e);
    var n := WordsBefore(s, b) - WordsBefore(s, e);
    assert rest[n] == s[b..WordEnd(s, b)];
    WordsFromWordStep(s, i);
    var words := [s[i..e]] + rest;
    assert WordsFrom(s, i) == words;
    assert words[n + 1] == rest[n];
    assert WordsBefore(s, b) - WordsBefore(s, i) == n + 1;
  }

  lemma {:induction false} WordsFromRuns(s: string, i: nat, b: nat)
    requires i <= b && WordStart(s, b)
    requires i == 0 || IsShellSpace(s[i - 1]) || (i < |s| && IsShellSpace(s[i]))
    ensures RunIndexed(s, i, b)
    decreases |s| - i
  {
    if IsShellSpace(s[i]) {
      WordsFromRuns(s, i + 1, b);
      SpaceCase(s, i, b);
    } else if b == i {
      WordsFromWordStep(s, i);
    } else {
      WordBeyondRun(s, i, WordEnd(s, i), b);
      WordsFromRuns(s, WordEnd(s, i), b);
      WordCase(s, i, b);
    }
  }

  /** The words are exactly the maximal runs of non-separators, in order:
      there is one word per word start, and the run starting at `b` is the
      word numbered by how many words start before `b`. So "ab" is the one
      word "ab", never "a" and "b". */
  lemma WordsAreRuns(s: string)
    ensures |Words(s)| == WordsBefore(s, |s|)
    ensures forall b: nat :: WordStart(s, b) ==>
      WordsBefore(s, b) < |Words(s)| && Words(s)[WordsBefore(s, b)] == s[b..WordEnd(s, b)]
  {
    WordsFromCount(s, 0);
    forall b: nat | WordStart(s, b)
      ensures WordsBefore(s, b) < |Words(s)| && Words(s)[WordsBefore(s, b)] == s[b..WordEnd(s, b)]
    {
      WordsFromRuns(s, 0, b);
    }
  }

  // ---------------------------------------------------------------------
  // Integers

  predicate IsDigit(c: char) {
    '0' <= c <= '9'
  }

  /** One or more ASCII digits. */
  predicate IsNumeral(d: string) {
    |d| > 0 && forall k :: 0 <= k < |d| ==> IsDigit(d[k])
  }

  /** Value of a digit string, most significant digit first. */
  function DigitsValue(d: string): nat
    requires forall k :: 0 <= k < |d| ==> IsDigit(d[k])
  {
    if |d| == 0 then 0
    else
      var last := d[|d| - 1];
      assert IsDigit(last);
      10 * DigitsValue(d[..|d| - 1]) + (last as int - '0' as int)
  }

  /** The tokens `int()` accepts here: an optional sign, then digits. */
  predicate IsIntToken(t: string) {
    IsNumeral(t) || (|t| > 0 && (t[0] == '-' || t[0] == '+') && IsNumeral(t[1..]))
  }

  /** Python's `int(token)` on a token: an optional sign and decimal digits;
      anything else raises, here `None`. */
  function ParseInt(t: string): (r: Option<int>)
    ensures r.Some? <==> IsIntToken(t)
    ensures r.Some? && t[0] == '-' ==> r.value <= 0
    ensures r.Some? && t[0] != '-' ==> r.value >= 0
  {
    if |t| > 0 && (t[0] == '-' || t[0] == '+') then
      if IsNumeral(t[1..]) then
        var magnitude: int := DigitsValue(t[1..]);
        Some(if t[0] == '-' then -magnitude else magnitude)
      else None
    else if IsNumeral(t) then Some(DigitsValue(t))
    else None
  }

  /** The value `int()` gives a token: the digits after the sign are the
      decimal form of its magnitude behind any number of leading zeros, so
      the token fixes the value ("+7", "007" and "7" all give 7, and "-0"
      gives 0). */
  lemma ParseIntDigits(t: string)
    ensures ParseInt(t).Some? ==>
      var d := if t[0] == '-' || t[0] == '+' then t[1..] else t;
      var m := if t[0] == '-' then -ParseInt(t).value else ParseInt(t).value;
      m >= 0 && PaddedDecimal(d, m)
  {
    if |t| > 0 && (t[0] == '-' || t[0] == '+') {
      if IsNumeral(t[1..]) {
        NumeralPadded(t[1..]);
      }
    } else if IsNumeral(t) {
      NumeralPadded(t);
    }
  }

  /** `d` is `tail` behind zero or more '0' characters. */
  predicate ZeroPadded(d: string, tail: string) {
    |tail| <= |d| && d[|d| - |tail|..] == tail && forall i :: 0 <= i < |d| - |tail| ==> d[i] == '0'
  }

  /** `d` is the decimal form of `m` behind zero or more leading zeros. */
  predicate PaddedDecimal(d: string, m: nat) {
    ZeroPadded(d, Digits(m))
  }

  /** Appending a digit scales the value by ten and adds the digit. */
  lemma ValueSnoc(p: string, c: char)
    requires IsNumeral(p) && IsDigit(c)
    ensures IsNumeral(p + [c])
    ensures DigitsValue(p + [c]) == 10 * DigitsValue(p) + (c as int - '0' as int)
  {
    assert (p + [c])[..|p|] == p;
  }

  /** The decimal form of a digit's value is that digit. */
  lemma DigitShown(c: char)
    requires IsDigit(c)
    ensures Digits(c as int - '0' as int) == [c]
  {
  }

  /** The decimal form of a number with a digit appended. */
  lemma DigitsSnoc(v: nat, c: char, w: nat)
    requires v > 0 && IsDigit(c) && w == 10 * v + (c as int - '0' as int)
    ensures Digits(w) == Digits(v) + [c]
  {
    assert w / 10 == v && w % 10 == c as int - '0' as int;
  }

  /** A digit after a zero value: the digit is the decimal form and
      everything before it is a zero. */
  lemma PaddedAfterZero(p: string, c: char)
    requires IsNumeral(p) && IsDigit(c) && DigitsValue(p) == 0 && PaddedDecimal(p, 0)
    ensures PaddedDecimal(p + [c], DigitsValue(p + [c]))
  {
    var d := p + [c];
    ValueSnoc(p, c);
    DigitShown(c);
    assert Digits(0) == "0";
    assert d[|d| - 1..] == [c];
    forall i | 0 <= i < |d| - 1 ensures d[i] == '0' {
      assert d[i] == p[i];
      if i == |p| - 1 {
        assert p[|p| - 1..] == "0";
      }
    }
  }

  /** Zeros followed by `tail`, with a character appended, are the same
      zeros followed by `tail` and that character. */
  lemma PaddingExtends(p: string, c: char, tail: string)
    requires ZeroPadded(p, tail)
    ensures ZeroPadded(p + [c], tail + [c])
  {
    assert (p + [c])[|p| - |tail|..] == p[|p| - |tail|..] + [c];
  }

  /** Padding a decimal form is padding the number. */
  lemma PaddedAs(d: string, m: nat, tail: string)
    requires Digits(m) == tail && ZeroPadded(d, tail)
    ensures PaddedDecimal(d, m)
  {
  }

  /** A digit after a non-zero value extends its decimal form. */
  lemma PaddedAfterValue(p: string, c: char)
    requires IsNumeral(p) && IsDigit(c) && DigitsValue(p) > 0 && PaddedDecimal(p, DigitsValue(p))
    ensures PaddedDecimal(p + [c], DigitsValue(p + [c]))
  {
    var vp := DigitsValue(p);
    var w := DigitsValue(p + [c]);
    ValueSnoc(p, c);
    DigitsSnoc(vp, c, w);
    PaddingExtends(p, c, Digits(vp));
    PaddedAs(p + [c], w, Digits(vp) + [c]);
  }

  /** A numeral is the decimal form of its value behind leading zeros. */
  lemma {:induction false} NumeralPadded(d: string)
    requires IsNumeral(d)
    ensures PaddedDecimal(d, DigitsValue(d))
    decreases |d|
  {
    var c := d[|d| - 1];
    var p := d[..|d| - 1];
    assert d == p + [c];
    if |d| == 1 {
      assert Digits(DigitsValue(d)) == [c];
    } else {
      NumeralPadded(p);
      if DigitsValue(p) == 0 {
        PaddedAfterZero(p, c);
      } else {
        PaddedAfterValue(p, c);
      }
    }
  }

  /** Decimal digits of a natural number. */
  function Digits(n: nat): (d: string)
    ensures IsNumeral(d)
  {
    if n < 10 then [('0' as int + n) as char]
    else Digits(n / 10) + [('0' as int + n % 10) as char]
  }

  /** Python's `str(n)`. */
  function Show(n: int): string {
    if n < 0 then "-" + Digits(-n) else Digits(n)
  }

  lemma {:induction false} DigitsValueDigits(n: nat)
    ensures DigitsValue(Digits(n)) == n
  {
    if n >= 10 {
      DigitsValueDigits(n / 10);
      var d := Digits(n);
      assert d[..|d| - 1] == Digits(n / 10);
    }
  }

  /** A leading zero adds nothing to a digit string's value. */
  lemma {:induction false} LeadingZeroValue(d: string)
    requires forall k :: 0 <= k < |d| ==> IsDigit(d[k])
    ensures DigitsValue("0" + d) == DigitsValue(d)
    decreases |d|
  {
    if |d| > 0 {
      var z := "0" + d;
      assert z[..|z| - 1] == "0" + d[..|d| - 1];
      assert z[|z| - 1] == d[|d| - 1];
      LeadingZeroValue(d[..|d| - 1]);
    }
  }

  /** A "+" sign or a leading zero does not change the parsed value, and
      a "-" sign negates it: "+7", "007" and "7" all parse to 7. */
  lemma ParseSignsAndZeros(d: string)
    requires IsNumeral(d)
    ensures ParseInt(d) == Some(DigitsValue(d))
    ensures ParseInt("+" + d) == Some(DigitsValue(d))
    ensures ParseInt("0" + d) == Some(DigitsValue(d))
    ensures ParseInt("-" + d) == Some(-(DigitsValue(d) as int))
  {
    SignedValue(d, '+');
    SignedValue(d, '-');
    ZeroLedValue(d);
  }

  lemma SignedValue(d: string, sign: char)
    requires IsNumeral(d) && (sign == '+' || sign == '-')
    ensures ParseInt([sign] + d) == Some(if sign == '-' then -(DigitsValue(d) as int) else DigitsValue(d))
  {
    var t := [sign] + d;
    assert t[0] == sign && t[1..] == d;
  }

  lemma ZeroLedValue(d: string)
    requires IsNumeral(d)
    ensures ParseInt("0" + d) == Some(DigitsValue(d))
  {
    var t := "0" + d;
    assert t[0] == '0';
    assert IsNumeral(t) by {
      forall k | 0 <= k < |t| ensures IsDigit(t[k]) {
        if k > 0 { assert t[k] == d[k - 1]; }
      }
    }
    LeadingZeroValue(d);
  }

  /** A printed natural number parses back to itself. */
  lemma ParseShowNat(n: nat)
    ensures ParseInt(Digits(n)) == Some(n)
  {
    DigitsValueDigits(n);
  }

  /** A printed negative number parses back to itself. */
  lemma ParseShowNegative(n: int)
    requires n < 0
    ensures ParseInt("-" + Digits(-n)) == Some(n)
  {
    var t := "-" + Digits(-n);
    DigitsValueDigits(-n);
    assert t[1..] == Digits(-n);
    assert t[0] == '-';
  }

  /** Parsing a printed integer gives the integer back. */
  lemma ParseShow(n: int)
    ensures ParseInt(Show(n)) == Some(n)
  {
    if n < 0 {
      ParseShowNegative(n);
    } else {
      ParseShowNat(n);
    }
  }

}
