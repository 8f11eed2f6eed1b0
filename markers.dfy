/** The commit-message markers of autosemver/git.py: the `sem-ver:` headers
    (`FEAT_HEADER`, `MAJOR_HEADER`, searched case-insensitively) and the
    `* NEW` / `* INCOMPATIBLE` bullets (`FEAT_MSG`, `MAJOR_MSG`, searched
    case-sensitively), and the predicates `is_feature` and `is_api_break` built
    on them. Each regular expression is written out as a predicate on positions
    of the message. */
module Markers {
  import opened Py
  import opened Repo

  /** One character of a pattern under `re.IGNORECASE`, for a pattern
      character `lit` that is a lower-case ASCII letter or punctuation: the
      letter itself, its upper-case form, and the two non-ASCII code points
      that fold onto a letter used here (U+017F onto `s`, U+212A onto `k`). */
  predicate FoldEq(c: char, lit: char) {
    c == lit
    || ('a' <= lit <= 'z' && c as int == lit as int - 32)
    || (lit == 's' && c == '\U{017F}')
    || (lit == 'k' && c == '\U{212A}')
  }

  /** `lit` matches case-insensitively in `s` at `pos`. */
  predicate FoldMatchAt(s: string, pos: nat, lit: string) {
    pos + |lit| <= |s| && forall k | 0 <= k < |lit| :: FoldEq(s[pos + k], lit[k])
  }

  /** `\s*` takes exactly `s[i..j]`. */
  predicate AllSpace(s: string, i: nat, j: nat)
    requires i <= j <= |s|
  {
    forall k | i <= k < j :: IsSpace(s[k])
  }

  /** `.*` takes exactly `s[i..j]`: `.` matches everything but a newline. */
  predicate NoNewline(s: string, i: nat, j: nat)
    requires i <= j <= |s|
  {
    forall k | i <= k < j :: s[k] != '\n'
  }

  const SemVer: string := "sem-ver:"

  /** A match of `\nsem-ver:\s*.*KW.*\n`: the opening newline at `p`, `\s*`
      ending at `b`, the keyword at `c` and the closing newline at `d`. */
  predicate HeaderAt(s: string, kw: string, p: nat, b: nat, c: nat, d: nat) {
    p + 1 + |SemVer| <= b <= c && c + |kw| <= d < |s|
    && s[p] == '\n' && FoldMatchAt(s, p + 1, SemVer)
    && AllSpace(s, p + 1 + |SemVer|, b) && NoNewline(s, b, c)
    && FoldMatchAt(s, c, kw) && NoNewline(s, c + |kw|, d) && s[d] == '\n'
  }

  /** `re.search` of the header pattern with keyword `kw` succeeds. */
  predicate HasHeader(s: string, kw: string) {
    exists p, b, c, d | 0 <= p <= b <= c <= d < |s| :: HeaderAt(s, kw, p, b, c, d)
  }

  /** `lit` occurs in `s` at `i`, character for character. */
  predicate LiteralAt(s: string, i: nat, lit: string) {
    i + |lit| <= |s| && s[i..i + |lit|] == lit
  }

  /** `re.search` of a pattern without special characters. */
  predicate Contains(s: string, lit: string) {
    exists i | 0 <= i <= |s| :: LiteralAt(s, i, lit)
  }

  const NewBullet: string := "\n* NEW"
  const IncompatibleBullet: string := "\n* INCOMPATIBLE"

  /** `FEAT_HEADER.search(m) or FEAT_MSG.search(m)`. */
  predicate FeatureMessage(m: string) {
    HasHeader(m, "feature") || HasHeader(m, "deprecat") || Contains(m, NewBullet)
  }

  /** `MAJOR_HEADER.search(m) or MAJOR_MSG.search(m)`. */
  predicate ApiBreakMessage(m: string) {
    HasHeader(m, "break") || Contains(m, IncompatibleBullet)
  }

  /** `is_feature(commit)`. */
  predicate IsFeature(commit: Commit) {
    FeatureMessage(commit.message)
  }

  /** `is_api_break(commit)`. */
  predicate IsApiBreak(commit: Commit) {
    ApiBreakMessage(commit.message)
  }

  // ---------------------------------------------------------------------
  // Markers count only after a newline.

  /** A header match needs a newline before it and a later one after it. */
  lemma HeaderNeedsTwoNewlines(s: string, kw: string)
    requires HasHeader(s, kw)
    ensures exists p, d | 0 <= p < d < |s| :: s[p] == '\n' && s[d] == '\n'
  {
    var p, b, c, d :| 0 <= p <= b <= c <= d < |s| && HeaderAt(s, kw, p, b, c, d);
    assert p < d;
  }

  /** A message with no newline except possibly a final one (an empty message,
      or a subject line alone) is neither a feature nor an api break. */
  lemma NoBodyIsUnmarked(m: string)
    requires forall i | 0 <= i < |m| - 1 :: m[i] != '\n'
    ensures !FeatureMessage(m) && !ApiBreakMessage(m)
  {
    forall kw, p, b, c, d | 0 <= p <= b <= c <= d < |m| ensures !HeaderAt(m, kw, p, b, c, d) {
      if p < d {
        assert m[p] != '\n';
      }
    }
    forall i | 0 <= i <= |m| ensures !LiteralAt(m, i, NewBullet) && !LiteralAt(m, i, IncompatibleBullet) {
      BulletStartsLine(m, i);
    }
  }

  /** `t` is what `s` holds from position `n` on. */
  predicate SuffixAt(s: string, t: string, n: nat) {
    |s| == n + |t| && forall k | 0 <= k < |t| :: s[n + k] == t[k]
  }

  lemma SuffixOfConcat(pre: string, t: string)
    ensures SuffixAt(pre + t, t, |pre|)
  {
  }

  /** Shifting a header match past a prefix. */
  lemma HeaderAtShift(s: string, t: string, n: nat, kw: string, p: nat, b: nat, c: nat, d: nat)
    requires SuffixAt(s, t, n)
    ensures HeaderAt(t, kw, p, b, c, d) <==> HeaderAt(s, kw, n + p, n + b, n + c, n + d)
  {
    if p + 1 + |SemVer| <= b <= c && c + |kw| <= d < |t| {
      FoldMatchShift(s, t, n, p + 1, SemVer);
      FoldMatchShift(s, t, n, c, kw);
      RunShift(s, t, n, p + 1 + |SemVer|, b);
      RunShift(s, t, n, b, c);
      RunShift(s, t, n, c + |kw|, d);
    }
  }

  lemma RunShift(s: string, t: string, n: nat, i: nat, j: nat)
    requires SuffixAt(s, t, n) && i <= j <= |t|
    ensures AllSpace(t, i, j) <==> AllSpace(s, n + i, n + j)
    ensures NoNewline(t, i, j) <==> NoNewline(s, n + i, n + j)
  {
    assert forall k | i <= k < j :: s[n + k] == t[k];
    if !AllSpace(t, i, j) {
      var k :| i <= k < j && !IsSpace(t[k]);
      assert !IsSpace(s[n + k]);
    }
    if !NoNewline(t, i, j) {
      var k :| i <= k < j && t[k] == '\n';
      assert s[n + k] == '\n';
    }
    if !AllSpace(s, n + i, n + j) {
      var k :| n + i <= k < n + j && !IsSpace(s[k]);
      assert t[k - n] == s[k];
    }
    if !NoNewline(s, n + i, n + j) {
      var k :| n + i <= k < n + j && s[k] == '\n';
      assert t[k - n] == s[k];
    }
  }

  lemma FoldMatchShift(s: string, t: string, n: nat, pos: nat, lit: string)
    requires SuffixAt(s, t, n)
    ensures FoldMatchAt(t, pos, lit) <==> FoldMatchAt(s, n + pos, lit)
  {
  }

  /** Shifting a literal match past a prefix. */
  lemma LiteralAtShift(s: string, t: string, n: nat, i: nat, lit: string)
    requires SuffixAt(s, t, n)
    ensures LiteralAt(t, i, lit) <==> LiteralAt(s, n + i, lit)
  {
    if i + |lit| <= |t| {
      assert s[n + i..n + i + |lit|] == t[i..i + |lit|];
    }
  }

  /** A newline-free prefix cannot hold the newline a header opens with. */
  lemma HasHeaderPrefix(pre: string, t: string, kw: string)
    requires '\n' !in pre
    ensures HasHeader(pre + t, kw) <==> HasHeader(t, kw)
  {
    SuffixOfConcat(pre, t);
    if HasHeader(pre + t, kw) {
      HeaderDropPrefix(pre + t, t, |pre|, kw);
    }
    if HasHeader(t, kw) {
      var p, b, c, d :| 0 <= p <= b <= c <= d < |t| && HeaderAt(t, kw, p, b, c, d);
      HeaderAtShift(pre + t, t, |pre|, kw, p, b, c, d);
    }
  }

  lemma HeaderDropPrefix(s: string, t: string, n: nat, kw: string)
    requires SuffixAt(s, t, n) && HasHeader(s, kw)
    requires forall k | 0 <= k < n :: s[k] != '\n'
    ensures HasHeader(t, kw)
  {
    var p, b, c, d :| 0 <= p <= b <= c <= d < |s| && HeaderAt(s, kw, p, b, c, d);
    assert n <= p by {
      assert s[p] == '\n';
    }
    HeaderShiftBack(s, t, n, kw, p, b, c, d);
  }

  lemma HeaderShiftBack(s: string, t: string, n: nat, kw: string, p: nat, b: nat, c: nat, d: nat)
    requires SuffixAt(s, t, n) && HeaderAt(s, kw, p, b, c, d) && n <= p <= b <= c <= d
    ensures HasHeader(t, kw)
  {
    HeaderAtShift(s, t, n, kw, p - n, b - n, c - n, d - n);
    assert HeaderAt(t, kw, p - n, b - n, c - n, d - n);
  }

  /** Nor the newline a bullet opens with. */
  lemma ContainsBulletPrefix(pre: string, t: string, lit: string)
    requires '\n' !in pre && |lit| > 0 && lit[0] == '\n'
    ensures Contains(pre + t, lit) <==> Contains(t, lit)
  {
    var s, n := pre + t, |pre|;
    SuffixOfConcat(pre, t);
    if Contains(s, lit) {
      var i :| 0 <= i <= |s| && LiteralAt(s, i, lit);
      assert s[i..i + |lit|][0] == s[i];
      assert i >= n by {
        assert forall k | 0 <= k < n :: s[k] == pre[k];
      }
      LiteralAtShift(s, t, n, i - n, lit);
    }
    if Contains(t, lit) {
      var i :| 0 <= i <= |t| && LiteralAt(t, i, lit);
      LiteralAtShift(s, t, n, i, lit);
    }
  }

  /** The subject line (everything before the first newline) takes no part
      in classification: a subject line alone, with or without its final
      newline, is neither a feature nor an api break whatever it says, and
      with a body following, the message is marked exactly when the body
      (with the newline that opens it) is. */
  lemma SubjectOnlyIsUnmarked(subj: string, body: string)
    requires '\n' !in subj
    ensures !FeatureMessage(subj) && !ApiBreakMessage(subj)
    ensures !FeatureMessage(subj + "\n") && !ApiBreakMessage(subj + "\n")
    ensures FeatureMessage(subj + "\n" + body) <==> FeatureMessage("\n" + body)
    ensures ApiBreakMessage(subj + "\n" + body) <==> ApiBreakMessage("\n" + body)
  {
    NoBodyIsUnmarked(subj);
    var m := subj + "\n";
    assert forall i | 0 <= i < |m| - 1 :: m[i] == subj[i];
    NoBodyIsUnmarked(m);
    var t := "\n" + body;
    assert subj + "\n" + body == subj + t;
    HasHeaderPrefix(subj, t, "feature");
    HasHeaderPrefix(subj, t, "deprecat");
    HasHeaderPrefix(subj, t, "break");
    ContainsBulletPrefix(subj, t, NewBullet);
    ContainsBulletPrefix(subj, t, IncompatibleBullet);
  }

  /** Both bullets open with a newline followed by `*`, and their words
      are matched in capitals only: unlike the headers, the bullets are
      case-sensitive. */
  lemma BulletStartsLine(m: string, i: nat)
    ensures LiteralAt(m, i, NewBullet) || LiteralAt(m, i, IncompatibleBullet)
            ==> i + 1 < |m| && m[i] == '\n' && m[i + 1] == '*'
    ensures LiteralAt(m, i, NewBullet) ==> m[i + 3..i + 6] == "NEW"
    ensures LiteralAt(m, i, IncompatibleBullet) ==> m[i + 3..i + 15] == "INCOMPATIBLE"
  {
    if i + |NewBullet| <= |m| {
      assert m[i..i + |NewBullet|][0] == m[i] && m[i..i + |NewBullet|][1] == m[i + 1];
      assert m[i + 3..i + 6] == m[i..i + |NewBullet|][3..6];
    }
    if i + |IncompatibleBullet| <= |m| {
      assert m[i..i + |IncompatibleBullet|][0] == m[i] && m[i..i + |IncompatibleBullet|][1] == m[i + 1];
      assert m[i + 3..i + 15] == m[i..i + |IncompatibleBullet|][3..15];
    }
  }

  // ---------------------------------------------------------------------
  // The headers are case-insensitive.

  predicate IsAsciiLetter(c: char) {
    'a' <= c <= 'z' || 'A' <= c <= 'Z'
  }

  function AsciiLower(c: char): char {
    if 'A' <= c <= 'Z' then (c as int + 32) as char else c
  }

  /** `t` is `s` with the case of some ASCII letters changed. */
  predicate CaseVariant(s: string, t: string) {
    |s| == |t|
    && forall i | 0 <= i < |s| ::
         s[i] == t[i] || (IsAsciiLetter(s[i]) && IsAsciiLetter(t[i]) && AsciiLower(s[i]) == AsciiLower(t[i]))
  }

  /** The pattern characters used in the headers: lower-case letters and
      punctuation, never an upper-case letter. */
  predicate PatternText(lit: string) {
    forall k | 0 <= k < |lit| :: !('A' <= lit[k] <= 'Z')
  }

  lemma FoldEqCaseVariant(c: char, c': char, lit: char)
    requires !('A' <= lit <= 'Z')
    requires c == c' || (IsAsciiLetter(c) && IsAsciiLetter(c') && AsciiLower(c) == AsciiLower(c'))
    requires FoldEq(c, lit)
    ensures FoldEq(c', lit)
  {
  }

  lemma FoldMatchCaseVariant(s: string, t: string, pos: nat, lit: string)
    requires CaseVariant(s, t) && PatternText(lit)
    requires FoldMatchAt(s, pos, lit)
    ensures FoldMatchAt(t, pos, lit)
  {
    forall k | 0 <= k < |lit| ensures FoldEq(t[pos + k], lit[k]) {
      FoldEqCaseVariant(s[pos + k], t[pos + k], lit[k]);
    }
  }

  lemma HeaderAtCaseVariant(s: string, t: string, kw: string, p: nat, b: nat, c: nat, d: nat)
    requires CaseVariant(s, t) && PatternText(kw)
    requires HeaderAt(s, kw, p, b, c, d)
    ensures HeaderAt(t, kw, p, b, c, d)
  {
    assert PatternText(SemVer);
    FoldMatchCaseVariant(s, t, p + 1, SemVer);
    FoldMatchCaseVariant(s, t, c, kw);
    forall k | 0 <= k < |s| && (s[k] == '\n' || IsSpace(s[k]))
      ensures t[k] == s[k]
    {
    }
  }

  lemma CaseVariantSymmetric(s: string, t: string)
    requires CaseVariant(s, t)
    ensures CaseVariant(t, s)
  {
  }

  /** Changing the case of ASCII letters anywhere in a message never changes
      whether a `sem-ver:` header is found ("sEm-VeR: FeAtUre" counts). */
  lemma HeaderCaseInsensitive(s: string, t: string, kw: string)
    requires CaseVariant(s, t) && PatternText(kw)
    ensures HasHeader(s, kw) <==> HasHeader(t, kw)
  {
    if HasHeader(s, kw) {
      var p, b, c, d :| 0 <= p <= b <= c <= d < |s| && HeaderAt(s, kw, p, b, c, d);
      HeaderAtCaseVariant(s, t, kw, p, b, c, d);
    }
    if HasHeader(t, kw) {
      CaseVariantSymmetric(s, t);
      var p, b, c, d :| 0 <= p <= b <= c <= d < |t| && HeaderAt(t, kw, p, b, c, d);
      HeaderAtCaseVariant(t, s, kw, p, b, c, d);
    }
  }

  // ---------------------------------------------------------------------
  // Concrete messages.

  /** "Subject\n\nsem-ver: feature\n" is a feature. */
  lemma FeatureHeaderExample()
    ensures FeatureMessage("Subject\n\nsem-ver: feature\n")
  {
    var s := "Subject\n\nsem-ver: feature\n";
    assert FoldMatchAt(s, 9, SemVer);
    assert FoldMatchAt(s, 18, "feature");
    assert HeaderAt(s, "feature", 8, 18, 18, 25);
    assert HasHeader(s, "feature");
  }

  /** "deprecated" marks a feature too. */
  lemma DeprecatedHeaderExample()
    ensures FeatureMessage("Subject\n\nsem-ver: DePrecated\n")
  {
    var s := "Subject\n\nsem-ver: DePrecated\n";
    assert FoldMatchAt(s, 9, SemVer);
    assert FoldMatchAt(s, 18, "deprecat");
    assert HeaderAt(s, "deprecat", 8, 18, 18, 28);
    assert HasHeader(s, "deprecat");
  }

  /** "Subject\n\nsem-ver: api-breaking\n" is an api break. */
  lemma ApiBreakHeaderExample()
    ensures ApiBreakMessage("Subject\n\nsem-ver: api-breaking\n")
  {
    var s := "Subject\n\nsem-ver: api-breaking\n";
    assert FoldMatchAt(s, 9, SemVer);
    assert FoldMatchAt(s, 22, "break");
    assert HeaderAt(s, "break", 8, 18, 22, 30);
    assert HasHeader(s, "break");
  }

  /** The bullets follow a newline and are case-sensitive. */
  lemma BulletExamples()
    ensures FeatureMessage("Subject\n\n* NEW: fancy stuff\n")
    ensures ApiBreakMessage("Subject\n\n* INCOMPATIBLE: old stuff\n")
  {
    var s1 := "Subject\n" + NewBullet + ": fancy stuff\n";
    assert s1 == "Subject\n\n* NEW: fancy stuff\n";
    assert s1[8..8 + |NewBullet|] == NewBullet;
    assert LiteralAt(s1, 8, NewBullet);
    var s2 := "Subject\n" + IncompatibleBullet + ": old stuff\n";
    assert s2 == "Subject\n\n* INCOMPATIBLE: old stuff\n";
    assert s2[8..8 + |IncompatibleBullet|] == IncompatibleBullet;
    assert LiteralAt(s2, 8, IncompatibleBullet);
  }

  /** Lower-case bullets mark nothing. */
  lemma LowerCaseBulletExamples()
    ensures !FeatureMessage("Subject\n\n* new: x\n")
    ensures !ApiBreakMessage("Subject\n\n* incompatible: x\n")
  {
    NoCapitalBullet("Subject\n\n* new: x\n");
    NoCapitalBullet("Subject\n\n* incompatible: x\n");
  }

  /** With no `s` (in any case) after the first character there is no
      header, and with neither `N` nor `I` there is no bullet. */
  lemma NoCapitalBullet(m: string)
    requires forall i | 1 <= i < |m| :: m[i] != 's' && m[i] != 'S' && m[i] != '\U{017F}'
    requires forall i | 0 <= i < |m| :: m[i] != 'N' && m[i] != 'I'
    ensures !FeatureMessage(m) && !ApiBreakMessage(m)
  {
    forall kw, p, b, c, d | 0 <= p <= b <= c <= d < |m| ensures !HeaderAt(m, kw, p, b, c, d) {
      if p + 1 + |SemVer| <= |m| {
        assert !FoldEq(m[p + 1], SemVer[0]);
      }
    }
    forall i | 0 <= i <= |m| ensures !LiteralAt(m, i, NewBullet) && !LiteralAt(m, i, IncompatibleBullet) {
      BulletStartsLine(m, i);
      if i + 6 <= |m| {
        assert m[i + 3..i + 6][0] == m[i + 3];
      }
      if i + 15 <= |m| {
        assert m[i + 3..i + 15][0] == m[i + 3];
      }
    }
  }

  /** A header needs its closing newline: without one the message is not
      marked, whatever the header says. */
  lemma UnterminatedHeaderExamples()
    ensures !FeatureMessage("Subject\n\nsem-ver: feature")
    ensures !ApiBreakMessage("Subject\n\nsem-ver: api-breaking")
  {
    NoNewlineAfterSubject("Subject\n\nsem-ver: feature");
    NoNewlineAfterSubject("Subject\n\nsem-ver: api-breaking");
  }

  /** When no newline occurs from the position a `sem-ver:` after the first
      possible newline would end on, no header can close; and with no `*`
      right after a newline there is no bullet. */
  lemma NoNewlineAfterSubject(m: string)
    requires forall i | 1 + |SemVer| <= i < |m| :: m[i] != '\n'
    requires forall i | 0 <= i < |m| - 1 :: m[i] == '\n' ==> m[i + 1] != '*'
    ensures !FeatureMessage(m) && !ApiBreakMessage(m)
  {
    forall kw, p, b, c, d | 0 <= p <= b <= c <= d < |m| ensures !HeaderAt(m, kw, p, b, c, d) {
      if d >= 1 + |SemVer| {
        assert m[d] != '\n';
      }
    }
    forall i | 0 <= i <= |m| ensures !LiteralAt(m, i, NewBullet) && !LiteralAt(m, i, IncompatibleBullet) {
      BulletStartsLine(m, i);
    }
  }
}
