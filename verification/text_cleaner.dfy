/** The ingestion normaliser (server/src/utils/textCleaner.js): white-space and
    control-character cleanup, and the content fingerprint used for duplicate detection. */
module TextCleaner {
  import opened JsStrings
  import opened Seqs

  /** Number of leading characters the fingerprint covers. */
  const HashPrefixLength: nat := 10000

  /** Control characters that are not white space (`\s` already covers U+0009–U+000D). */
  predicate IsHiddenControl(c: char) {
    IsControl(c) && !IsSpace(c)
  }

  /** `s` contains no hidden control character. */
  ghost predicate NoHiddenControl(s: string) {
    forall i :: 0 <= i < |s| ==> !IsHiddenControl(s[i])
  }

  /** `cleanText(text)`: "" for an empty or absent input (both are falsy);
      otherwise `text.replace(/\s+/g, " ").trim()` followed by
      `.replace(/[\x00-\x1F\x7F]+/g, " ")`. */
  function CleanText(text: string): (r: string)
    ensures text == "" ==> r == ""
    ensures forall i :: 0 <= i < |r| ==> !IsControl(r[i])
    ensures |r| <= |text|
    ensures NoHiddenControl(text) ==> Tidy(r) && NoneMatch(r, IsControl)
  {
    if text == "" then ""
    else
      var squished := Squish(text);
      SquishShorter(text);
      ReplaceRunsShorter(squished, IsControl, ' ');
      ReplaceRunsChars(squished, IsControl, ' ');
      CleanShape(text);
      ReplaceRuns(squished, IsControl, " ")
  }

  lemma CleanShape(text: string)
    ensures NoHiddenControl(text) ==>
              ReplaceRuns(Squish(text), IsControl, " ") == Squish(text) && Tidy(Squish(text))
              && NoneMatch(Squish(text), IsControl)
  {
    if NoHiddenControl(text) {
      SquishedHasNoControl(text);
      ReplaceRunsNoMatch(Squish(text), IsControl, " ");
      SquishTidy(text);
    }
  }

  /** Without hidden control characters, squishing leaves no control character at all:
      the control characters that are white space are replaced by spaces. */
  lemma SquishedHasNoControl(text: string)
    requires NoHiddenControl(text)
    ensures NoneMatch(Squish(text), IsControl)
  {
    var cs := Collapse(text);
    ReplaceRunsChars(text, IsSpace, ' ');
    assert CharsFrom(cs, text, IsSpace, ' ');
    forall i | 0 <= i < |cs| ensures !IsControl(cs[i]) {
      if cs[i] != ' ' {
        var k :| 0 <= k < |text| && text[k] == cs[i];
      }
    }
    var r := Trim(cs);
    assert Contains(cs, r);
    var a :| 0 <= a <= |cs| - |r| && OccursAt(cs, r, a);
    forall i | 0 <= i < |r| ensures !IsControl(r[i]) {
      assert r[i] == cs[a + i];
    }
  }

  /** Cleaning is idempotent on text free of hidden control characters. */
  lemma CleanTextIdempotentWithoutHiddenControls(text: string)
    requires NoHiddenControl(text)
    ensures CleanText(CleanText(text)) == CleanText(text)
  {
    var r := CleanText(text);
    if r != "" {
      assert NoHiddenControl(r);
      SquishFixpoint(r);
      ReplaceRunsNoMatch(r, IsControl, " ");
    }
  }

  /** Cleaning is not idempotent in general: a hidden control character between
      two spaces becomes a third space, which a second cleaning collapses. */
  lemma CleanTextNotIdempotent(x: char, c: char, y: char)
    requires !IsSpace(x) && !IsControl(x) && !IsSpace(y) && !IsControl(y)
    requires IsHiddenControl(c)
    ensures CleanText([x, ' ', c, ' ', y]) == [x, ' ', ' ', ' ', y]
    ensures CleanText(CleanText([x, ' ', c, ' ', y])) == [x, ' ', y]
  {
    CleanHiddenControl(x, c, y);
    CleanThreeSpaces(x, y);
  }

  /** The first cleaning turns the control character into a space. */
  lemma CleanHiddenControl(x: char, c: char, y: char)
    requires !IsSpace(x) && !IsControl(x) && !IsSpace(y) && !IsControl(y)
    requires IsHiddenControl(c)
    ensures CleanText([x, ' ', c, ' ', y]) == [x, ' ', ' ', ' ', y]
  {
    var s := [x, ' ', c, ' ', y];
    assert Tidy(s);
    SquishFixpoint(s);
    ControlBecomesSpace(x, c, y);
  }

  /** The second cleaning collapses the three spaces. */
  lemma CleanThreeSpaces(x: char, y: char)
    requires !IsSpace(x) && !IsControl(x) && !IsSpace(y) && !IsControl(y)
    ensures CleanText([x, ' ', ' ', ' ', y]) == [x, ' ', y]
  {
    SquishCollapses(x, y);
    var u := [x, ' ', y];
    assert NoneMatch(u, IsControl);
    ReplaceRunsNoMatch(u, IsControl, " ");
  }

  lemma ControlBecomesSpace(x: char, c: char, y: char)
    requires !IsControl(x) && !IsControl(y) && IsControl(c)
    ensures ReplaceRuns([x, ' ', c, ' ', y], IsControl, " ") == [x, ' ', ' ', ' ', y]
  {
    var csb: string := [c, ' ', y];
    ControlBeforeSpace(c, ' ', y, IsControl, " ");
    ReplaceRunsKeep(' ', csb, IsControl, " ");
    ReplaceRunsKeep(x, [' '] + csb, IsControl, " ");
    assert [x, ' ', c, ' ', y] == [x] + ([' '] + csb);
  }

  /** A matching character followed by two others that do not match
      becomes the replacement. */
  lemma ControlBeforeSpace(c: char, s: char, y: char, p: char -> bool, rep: string)
    requires p(c) && !p(s) && !p(y)
    ensures ReplaceRuns([c, s, y], p, rep) == rep + [s, y]
  {
    var sb: string := [s, y];
    assert ReplaceRuns(sb, p, rep) == sb by {
      ReplaceRunsKeep(y, [], p, rep);
      ReplaceRunsKeep(s, [y], p, rep);
      assert [y] == [y] + [] && sb == [s] + [y];
    }
    SkipWhileCons(s, [y], p);
    assert sb == [s] + [y];
    ReplaceRunsReplace(c, sb, p, rep);
    assert [c, s, y] == [c] + sb;
  }

  lemma SquishCollapses(x: char, y: char)
    requires !IsSpace(x) && !IsSpace(y)
    ensures Squish([x, ' ', ' ', ' ', y]) == [x, ' ', y]
  {
    var u := [x, ' ', y];
    CollapseThreeSpaces(x, y);
    assert Tidy(u);
    SquishFixpoint(u);
  }

  /** The run of three spaces between two other characters becomes one. */
  lemma CollapseThreeSpaces(x: char, y: char)
    requires !IsSpace(x) && !IsSpace(y)
    ensures Collapse([x, ' ', ' ', ' ', y]) == [x, ' ', y]
  {
    var sssb: string := [' ', ' ', ' ', y];
    SpacesBefore(' ', y, IsSpace, " ");
    ReplaceRunsKeep(x, sssb, IsSpace, " ");
    assert [x, ' ', ' ', ' ', y] == [x] + sssb;
  }

  /** A run of three matching characters before one that does not match
      becomes the replacement. */
  lemma SpacesBefore(c: char, y: char, p: char -> bool, rep: string)
    requires p(c) && !p(y)
    ensures ReplaceRuns([c, c, c, y], p, rep) == rep + [y]
  {
    var t: string := [c] + ([c] + [y]);
    SkipTwo(c, y, p);
    KeepOne(y, p, rep);
    ReplaceRunsReplace(c, t, p, rep);
    assert [c, c, c, y] == [c] + t;
  }

  /** Two matching characters are skipped up to one that does not match. */
  lemma SkipTwo(c: char, y: char, p: char -> bool)
    requires p(c) && !p(y)
    ensures SkipWhile([c] + ([c] + [y]), p) == [y]
  {
    SkipWhileCons(c, [c] + [y], p);
    SkipWhileCons(c, [y], p);
    SkipWhileCons(y, [], p);
    assert [y] + [] == [y];
  }

  /** A single character that does not match is kept. */
  lemma KeepOne(y: char, p: char -> bool, rep: string)
    requires !p(y)
    ensures ReplaceRuns([y], p, rep) == [y]
  {
  }

  /** `contentHash(text)`: the hex SHA-1 digest of the first 10,000 characters.
      The digest function itself is a parameter (`sha1`). */
  function ContentHash(sha1: string -> string, text: string): (r: string)
    ensures |text| <= HashPrefixLength ==> r == sha1(text)
    ensures |text| > HashPrefixLength ==> r == sha1(text[..HashPrefixLength])
  {
    sha1(Prefix(text, HashPrefixLength))
  }

  /** The fingerprint depends only on the first 10,000 characters: texts sharing
      that prefix hash equally, even when they differ further on. */
  lemma ContentHashPrefix(sha1: string -> string, a: string, b: string)
    requires |a| >= HashPrefixLength && |b| >= HashPrefixLength
    requires a[..HashPrefixLength] == b[..HashPrefixLength]
    ensures ContentHash(sha1, a) == ContentHash(sha1, b)
  {
  }

  /** Texts no longer than the prefix are hashed whole, so for them equal
      fingerprints mean equal digests of the full text. */
  lemma ContentHashShort(sha1: string -> string, text: string)
    requires |text| <= HashPrefixLength
    ensures ContentHash(sha1, text) == sha1(text)
  {
  }
}
