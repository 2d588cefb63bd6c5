/** The JavaScript string and regular-expression operations the pipeline relies on,
    on strings modelled as sequences of characters:
    `\s` and control-character classes, `trim`, `toLowerCase`, `includes`,
    `startsWith`, `slice(0, n)`, run replacement `s.replace(/[P]+/g, rep)`
    and splitting `s.split(/[P]+/)`. */
module JsStrings {

  /** JavaScript's `\s` class, which is also the set `String.prototype.trim`
      strips: the IsSpace and LineTerminator code points of ECMA-262. */
  predicate IsSpace(c: char) {
    || c == '\t' || c == '\n' || c == '\U{B}' || c == '\U{C}' || c == '\r' || c == ' '
    || c == '\U{A0}' || c == '\U{1680}' || ('\U{2000}' <= c <= '\U{200A}')
    || c == '\U{2028}' || c == '\U{2029}' || c == '\U{202F}' || c == '\U{205F}'
    || c == '\U{3000}' || c == '\U{FEFF}'
  }

  /** The class `[\x00-\x1F\x7F]`. */
  predicate IsControl(c: char) {
    c <= '\U{1F}' || c == '\U{7F}'
  }

  predicate IsAsciiUpper(c: char) { 'A' <= c <= 'Z' }

  predicate IsAsciiLower(c: char) { 'a' <= c <= 'z' }

  /** `\d` without the `u` flag, and `[0-9]`. */
  predicate IsDigit(c: char) { '0' <= c <= '9' }

  /** `[a-z0-9]` */
  predicate IsLowerAlnum(c: char) { IsAsciiLower(c) || IsDigit(c) }

  /** `toLowerCase` on one character, for the ASCII letters. */
  function LowerChar(c: char): (r: char)
    ensures !IsAsciiUpper(r)
    ensures IsAsciiUpper(c) ==> IsAsciiLower(r)
    ensures !IsAsciiUpper(c) ==> r == c
  {
    if IsAsciiUpper(c) then (c as int + 32) as char else c
  }

  /** `String.prototype.toLowerCase` (ASCII case mapping). */
  function ToLower(s: string): (r: string)
    ensures |r| == |s|
    ensures forall i :: 0 <= i < |s| ==> r[i] == LowerChar(s[i])
  {
    seq(|s|, i requires 0 <= i < |s| => LowerChar(s[i]))
  }

  /** `s.startsWith(prefix)` */
  predicate StartsWith(s: string, prefix: string) {
    |prefix| <= |s| && s[..|prefix|] == prefix
  }

  /** `sub` occurs in `s` starting at index `i`. */
  predicate OccursAt(s: string, sub: string, i: int) {
    0 <= i <= |s| - |sub| && s[i..i + |sub|] == sub
  }

  /** `s.includes(sub)` */
  predicate Contains(s: string, sub: string) {
    exists i | 0 <= i <= |s| - |sub| :: OccursAt(s, sub, i)
  }

  /** Every character of `s` fails `p`. */
  ghost predicate NoneMatch(s: string, p: char -> bool) {
    forall i :: 0 <= i < |s| ==> !p(s[i])
  }

  /** Every character of `s` satisfies `p`. */
  ghost predicate AllMatch(s: string, p: char -> bool) {
    forall i :: 0 <= i < |s| ==> p(s[i])
  }

  /** Every character satisfying `p` is `c`, and no two such characters are adjacent:
      the shape of a string in which every run of `p` has been replaced by `c`. */
  ghost predicate RunsCollapsed(s: string, p: char -> bool, c: char) {
    && (forall i :: 0 <= i < |s| ==> p(s[i]) ==> s[i] == c)
    && (forall i :: 0 < i < |s| ==> p(s[i]) ==> !p(s[i - 1]))
  }

  /** The leading run of characters satisfying `p` removed. */
  function SkipWhile(s: string, p: char -> bool): (r: string)
    ensures |r| <= |s| && r == s[|s| - |r|..]
    ensures |r| > 0 ==> !p(r[0])
  {
    if |s| > 0 && p(s[0]) then SkipWhile(s[1..], p) else s
  }

  /** `s.replace(/[P]+/g, rep)`: every maximal run of characters satisfying `p`
      replaced by `rep`, scanning left to right. */
  function ReplaceRuns(s: string, p: char -> bool, rep: string): string
    decreases |s|
  {
    if |s| == 0 then ""
    else if p(s[0]) then rep + ReplaceRuns(SkipWhile(s[1..], p), p, rep)
    else [s[0]] + ReplaceRuns(s[1..], p, rep)
  }

  /** `s.replace(/\s+/g, " ")` */
  function Collapse(s: string): string {
    ReplaceRuns(s, IsSpace, " ")
  }

  /** `String.prototype.trim`: the slice between the leading and the
      trailing white space. */
  function Trim(s: string): (r: string)
    ensures |r| <= |s|
    ensures Contains(s, r)
    ensures |r| > 0 ==> !IsSpace(r[0]) && !IsSpace(r[|r| - 1])
    ensures NoneMatch(s, IsSpace) ==> r == s
  {
    var a := SkipFrom(s, IsSpace, 0);
    var b := BackFrom(s, IsSpace, a, |s|);
    assert OccursAt(s, s[a..b], a);
    assert NoneMatch(s, IsSpace) ==> a == 0 && b == |s| && s[a..b] == s;
    s[a..b]
  }

  /** The index of the first character at or after `i` failing `p`, or `|s|`. */
  function SkipFrom(s: string, p: char -> bool, i: nat): (k: nat)
    requires i <= |s|
    ensures i <= k <= |s|
    ensures forall j :: i <= j < k ==> p(s[j])
    ensures k < |s| ==> !p(s[k])
    decreases |s| - i
  {
    if i < |s| && p(s[i]) then SkipFrom(s, p, i + 1) else i
  }

  /** The index just past the last character before `j` failing `p`, or `lo`. */
  function BackFrom(s: string, p: char -> bool, lo: nat, j: nat): (k: nat)
    requires lo <= j <= |s|
    ensures lo <= k <= j
    ensures forall m :: k <= m < j ==> p(s[m])
    ensures k > lo ==> !p(s[k - 1])
    decreases j
  {
    if j > lo && p(s[j - 1]) then BackFrom(s, p, lo, j - 1) else j
  }

  /** `s.replace(/\s+/g, " ").trim()`: white space collapsed and trimmed. */
  function Squish(s: string): string {
    Trim(Collapse(s))
  }

  /** The shape `Squish` produces: no leading or trailing white space, every
      white-space character a plain space, never two in a row. */
  ghost predicate Tidy(s: string) {
    && RunsCollapsed(s, IsSpace, ' ')
    && (|s| > 0 ==> !IsSpace(s[0]) && !IsSpace(s[|s| - 1]))
  }

  /** `parts.join(sep)` */
  function Join(parts: seq<string>, sep: string): string {
    if |parts| == 0 then ""
    else if |parts| == 1 then parts[0]
    else parts[0] + sep + Join(parts[1..], sep)
  }

  /** `s.split(/[P]+/)`: the pieces between the maximal runs of `p`. */
  function SplitRuns(s: string, p: char -> bool): (r: seq<string>)
    ensures |r| >= 1
    decreases |s|
  {
    if |s| == 0 then [""]
    else if p(s[0]) then [""] + SplitRuns(SkipWhile(s[1..], p), p)
    else
      var rest := SplitRuns(s[1..], p);
      [[s[0]] + rest[0]] + rest[1..]
  }

  /* ---------------- lemmas about case mapping ---------------- */

  /** Lower-casing leaves a string without capitals alone. */
  lemma ToLowerWithoutUpper(s: string)
    requires forall k :: 0 <= k < |s| ==> !IsAsciiUpper(s[k])
    ensures ToLower(s) == s
  {
  }

  /** Lower-casing twice is lower-casing once. */
  lemma ToLowerIdempotent(s: string)
    ensures ToLower(ToLower(s)) == ToLower(s)
  {
  }

  /* ---------------- lemmas about run replacement ---------------- */

  /** A run replaced by one character never lengthens the string. */
  lemma {:induction false} ReplaceRunsShorter(s: string, p: char -> bool, c: char)
    ensures |ReplaceRuns(s, p, [c])| <= |s|
    decreases |s|
  {
    if |s| == 0 {
    } else if p(s[0]) {
      ReplaceRunsShorter(SkipWhile(s[1..], p), p, c);
    } else {
      ReplaceRunsShorter(s[1..], p, c);
    }
  }

  /** Every character of `r` is `c`, or a character of `s` that fails `p`. */
  ghost predicate CharsFrom(r: string, s: string, p: char -> bool, c: char) {
    forall i :: 0 <= i < |r| ==> r[i] == c || (!p(r[i]) && r[i] in s)
  }

  /** Every character of the result is the replacement or a character of `s`
      that does not satisfy `p`. */
  lemma {:induction false} ReplaceRunsChars(s: string, p: char -> bool, c: char)
    ensures CharsFrom(ReplaceRuns(s, p, [c]), s, p, c)
    decreases |s|
  {
    if |s| > 0 {
      if p(s[0]) {
        var t := SkipWhile(s[1..], p);
        ReplaceRunsChars(t, p, c);
        SuffixIn(s, t);
        CharsFromCons(c, ReplaceRuns(t, p, [c]), t, s, p, c);
      } else {
        ReplaceRunsChars(s[1..], p, c);
        SuffixIn(s, s[1..]);
        assert s[0] in s;
        CharsFromCons(s[0], ReplaceRuns(s[1..], p, [c]), s[1..], s, p, c);
      }
    }
  }

  /** Every character of a suffix is a character of the whole. */
  lemma SuffixIn(s: string, t: string)
    requires |t| <= |s| && t == s[|s| - |t|..]
    ensures forall k :: 0 <= k < |t| ==> t[k] in s
  {
  }

  /** `CharsFrom` is kept by a good head in front of a good tail. */
  lemma CharsFromCons(h: char, rt: string, t: string, s: string, p: char -> bool, c: char)
    requires h == c || (!p(h) && h in s)
    requires CharsFrom(rt, t, p, c)
    requires forall k :: 0 <= k < |t| ==> t[k] in s
    ensures CharsFrom([h] + rt, s, p, c)
  {
  }

  /** A string not starting with `p` keeps its first character. */
  lemma ReplaceRunsHead(s: string, p: char -> bool, rep: string)
    requires |s| > 0 && !p(s[0])
    ensures |ReplaceRuns(s, p, rep)| > 0 && ReplaceRuns(s, p, rep)[0] == s[0]
  {
  }

  /** When the replacement itself satisfies `p`, the result has its runs collapsed. */
  lemma {:induction false} ReplaceRunsCollapses(s: string, p: char -> bool, c: char)
    requires p(c)
    ensures RunsCollapsed(ReplaceRuns(s, p, [c]), p, c)
    decreases |s|
  {
    if |s| > 0 {
      if p(s[0]) {
        var t := SkipWhile(s[1..], p);
        ReplaceRunsCollapses(t, p, c);
        if |t| > 0 {
          ReplaceRunsHead(t, p, [c]);
        }
        CollapsedCons(c, ReplaceRuns(t, p, [c]), p, c);
      } else {
        ReplaceRunsCollapses(s[1..], p, c);
        CollapsedCons(s[0], ReplaceRuns(s[1..], p, [c]), p, c);
      }
    }
  }

  /** A head that is not the start of a second run keeps runs collapsed. */
  lemma CollapsedCons(h: char, t: string, p: char -> bool, c: char)
    requires RunsCollapsed(t, p, c)
    requires p(h) ==> h == c && (|t| > 0 ==> !p(t[0]))
    ensures RunsCollapsed([h] + t, p, c)
  {
  }

  /** The tail of a collapsed string is collapsed, and a run at its head is
      a single `c`. */
  lemma CollapsedTail(s: string, p: char -> bool, c: char)
    requires |s| > 0 && RunsCollapsed(s, p, c)
    ensures RunsCollapsed(s[1..], p, c)
    ensures p(s[0]) ==> s[0] == c && (|s| > 1 ==> !p(s[1]))
  {
  }

  /** A string whose runs of `p` are already single `c`s is left unchanged. */
  lemma {:induction false} ReplaceRunsFixpoint(s: string, p: char -> bool, c: char)
    requires p(c)
    requires RunsCollapsed(s, p, c)
    ensures ReplaceRuns(s, p, [c]) == s
    decreases |s|
  {
    if |s| > 0 {
      CollapsedTail(s, p, c);
      ReplaceRunsFixpoint(s[1..], p, c);
      if p(s[0]) {
        assert SkipWhile(s[1..], p) == s[1..];
        ReplaceRunsReplace(s[0], s[1..], p, [c]);
      } else {
        ReplaceRunsKeep(s[0], s[1..], p, [c]);
      }
      assert s == [s[0]] + s[1..];
    }
  }

  /** Run replacement is idempotent when the replacement satisfies `p`. */
  lemma ReplaceRunsIdempotent(s: string, p: char -> bool, c: char)
    requires p(c)
    ensures ReplaceRuns(ReplaceRuns(s, p, [c]), p, [c]) == ReplaceRuns(s, p, [c])
  {
  }

  /** A string with no character satisfying `p` is left unchanged. */
  lemma {:induction false} ReplaceRunsNoMatch(s: string, p: char -> bool, rep: string)
    requires NoneMatch(s, p)
    ensures ReplaceRuns(s, p, rep) == s
    decreases |s|
  {
    if |s| > 0 {
      assert NoneMatch(s[1..], p) by {
        forall i | 0 <= i < |s[1..]| ensures !p(s[1..][i]) {
          assert s[1..][i] == s[i + 1];
        }
      }
      ReplaceRunsNoMatch(s[1..], p, rep);
      assert s == [s[0]] + s[1..];
    }
  }

  /** One step of `ReplaceRuns` at a character outside the class. */
  lemma ReplaceRunsKeep(c: char, t: string, p: char -> bool, rep: string)
    requires !p(c)
    ensures ReplaceRuns([c] + t, p, rep) == [c] + ReplaceRuns(t, p, rep)
  {
  }

  /** One step of `ReplaceRuns` at the start of a run. */
  lemma ReplaceRunsReplace(c: char, t: string, p: char -> bool, rep: string)
    requires p(c)
    ensures ReplaceRuns([c] + t, p, rep) == rep + ReplaceRuns(SkipWhile(t, p), p, rep)
  {
  }

  /** One step of `SkipWhile`, on a string given as a head and a tail. */
  lemma SkipWhileCons(c: char, t: string, p: char -> bool)
    ensures SkipWhile([c] + t, p) == if p(c) then SkipWhile(t, p) else [c] + t
  {
  }

  /* ---------------- lemmas about Squish ---------------- */

  /** `Squish` always produces a tidy string. */
  lemma SquishTidy(s: string)
    ensures Tidy(Squish(s))
  {
    ReplaceRunsCollapses(s, IsSpace, ' ');
    TrimCollapsedTidy(Collapse(s));
  }

  /** Trimming a string whose white space is collapsed makes it tidy. */
  lemma TrimCollapsedTidy(cs: string)
    requires RunsCollapsed(cs, IsSpace, ' ')
    ensures Tidy(Trim(cs))
  {
  }

  /** `Squish` leaves a tidy string unchanged. */
  lemma SquishFixpoint(s: string)
    requires Tidy(s)
    ensures Squish(s) == s
  {
    ReplaceRunsFixpoint(s, IsSpace, ' ');
    assert Collapse(s) == s;
    if |s| > 0 {
      assert SkipFrom(s, IsSpace, 0) == 0;
      assert BackFrom(s, IsSpace, 0, |s|) == |s|;
      assert s[0..|s|] == s;
    }
  }

  /** `Squish` is idempotent. */
  lemma SquishIdempotent(s: string)
    ensures Squish(Squish(s)) == Squish(s)
  {
    SquishTidy(s);
    SquishFixpoint(Squish(s));
  }

  /** `Squish` never lengthens a string. */
  lemma SquishShorter(s: string)
    ensures |Squish(s)| <= |s|
  {
    ReplaceRunsShorter(s, IsSpace, ' ');
  }

  /** Trimming keeps any property every character has. */
  lemma TrimKeeps(s: string, p: char -> bool)
    requires AllMatch(s, p)
    ensures AllMatch(Trim(s), p)
  {
  }

  /** A string with no white space at either end is its own trim. */
  lemma TrimTrimmed(s: string)
    requires |s| > 0 ==> !IsSpace(s[0]) && !IsSpace(s[|s| - 1])
    ensures Trim(s) == s
  {
  }

  /** `trim` is idempotent. */
  lemma TrimIdempotent(s: string)
    ensures Trim(Trim(s)) == Trim(s)
  {
  }

  /* ---------------- lemmas about splitting ---------------- */

  /** A prefix free of `p` is glued onto the first piece. */
  lemma {:induction false} SplitRunsPrefix(a: string, b: string, p: char -> bool)
    requires NoneMatch(a, p)
    ensures SplitRuns(a + b, p) == [a + SplitRuns(b, p)[0]] + SplitRuns(b, p)[1..]
    decreases |a|
  {
    if |a| > 0 {
      assert (a + b)[0] == a[0] && (a + b)[1..] == a[1..] + b;
      assert NoneMatch(a[1..], p) by {
        forall i | 0 <= i < |a[1..]| ensures !p(a[1..][i]) {
          assert a[1..][i] == a[i + 1];
        }
      }
      SplitRunsPrefix(a[1..], b, p);
      var bs := SplitRuns(b, p);
      var rest := SplitRuns((a + b)[1..], p);
      assert rest == [a[1..] + bs[0]] + bs[1..];
      assert rest[0] == a[1..] + bs[0] && rest[1..] == bs[1..];
      assert SplitRuns(a + b, p) == [[a[0]] + rest[0]] + rest[1..];
      assert [a[0]] + (a[1..] + bs[0]) == a + bs[0];
    } else {
      var bs := SplitRuns(b, p);
      assert a + b == b;
      assert a + bs[0] == bs[0];
      assert [bs[0]] + bs[1..] == bs;
    }
  }

  /** Splitting a join of `p`-free, non-empty pieces on a separator made of `p`
      characters gives the pieces back. */
  lemma {:induction false} SplitJoin(parts: seq<string>, sep: string, p: char -> bool)
    requires |parts| > 0 && |sep| > 0
    requires forall i :: 0 <= i < |sep| ==> p(sep[i])
    requires forall k :: 0 <= k < |parts| ==> |parts[k]| > 0 && NoneMatch(parts[k], p)
    ensures SplitRuns(Join(parts, sep), p) == parts
    decreases |parts|
  {
    if |parts| == 1 {
      SplitRunsPrefix(parts[0], "", p);
      assert parts[0] + "" == parts[0];
    } else {
      var rest := Join(parts[1..], sep);
      SplitJoin(parts[1..], sep, p);
      assert |rest| > 0 && rest[0] == parts[1][0] by {
        JoinHead(parts[1..], sep);
      }
      assert SplitRuns(sep + rest, p) == [""] + parts[1..] by {
        assert (sep + rest)[0] == sep[0];
        assert (sep + rest)[1..] == sep[1..] + rest;
        SkipSeparator(sep[1..], rest, p);
      }
      SplitRunsPrefix(parts[0], sep + rest, p);
      assert Join(parts, sep) == parts[0] + (sep + rest);
      assert parts[0] + "" == parts[0];
      assert parts == [parts[0]] + parts[1..];
    }
  }

  lemma JoinHead(parts: seq<string>, sep: string)
    requires |parts| > 0 && |parts[0]| > 0
    ensures |Join(parts, sep)| > 0 && Join(parts, sep)[0] == parts[0][0]
  {
  }

  lemma {:induction false} SkipSeparator(sep: string, rest: string, p: char -> bool)
    requires forall i :: 0 <= i < |sep| ==> p(sep[i])
    requires |rest| > 0 && !p(rest[0])
    ensures SkipWhile(sep + rest, p) == rest
    decreases |sep|
  {
    if |sep| > 0 {
      assert (sep + rest)[1..] == sep[1..] + rest;
      SkipSeparator(sep[1..], rest, p);
    } else {
      assert sep + rest == rest;
    }
  }

  /** No piece of a split contains a separator character. */
  lemma {:induction false} SplitRunsPieces(s: string, p: char -> bool)
    ensures forall k :: 0 <= k < |SplitRuns(s, p)| ==> NoneMatch(SplitRuns(s, p)[k], p)
    decreases |s|
  {
    if |s| == 0 {
    } else if p(s[0]) {
      SplitRunsPieces(SkipWhile(s[1..], p), p);
    } else {
      var rest := SplitRuns(s[1..], p);
      SplitRunsPieces(s[1..], p);
      var first := [s[0]] + rest[0];
      assert NoneMatch(first, p) by {
        forall i | 0 <= i < |first| ensures !p(first[i]) {
          if i > 0 { assert first[i] == rest[0][i - 1]; }
        }
      }
    }
  }
}
