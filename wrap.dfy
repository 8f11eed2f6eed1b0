/** `fit_to_cols` of autosemver/git.py: break a changelog line into lines of
    at most `cols` columns, each prefixed with `indent`. A line is cut at the
    column limit when a space sits there, else after the last space before it
    (the remainder then gets a ten-space hanging indent), else hard at the
    limit with a trailing '-'.

    `has_indent` in the source is '' or the ten-space hanging indent; only its
    truth value and its length (ten) are used, so it is a `bool` here.

    The source computes the position of the last space inside the window
    `what[len(has_indent):free_cols]` and uses it as a position in `what`:
    once the hanging indent is in use the two differ by ten, and the loop can
    come back to the state it started from. `FitToColsAsWritten` models that
    code; `WrapLines` and `FitToCols` use the position in `what`, the reading
    the cut needs. */
module Wrap {
  import opened Py

  /** The hanging indent of a continuation line. */
  const HangingIndent := "          "

  /** The loop condition: longer than the free columns, and a space after the
      leading whitespace. */
  predicate MustWrap(what: string, free: nat) {
    |what| > free && ' ' in LStrip(what)
  }

  /** Where the source searches for the last space: from the end of the
      hanging indent (when one is in use) up to the column limit. */
  function WindowStart(free: nat, hasIndent: bool): nat {
    if hasIndent && |HangingIndent| <= free then |HangingIndent| else if hasIndent then free else 0
  }

  /** One iteration of the loop: the line it emits (without the indent), the
      text left over and whether the hanging indent is now in use. */
  datatype Cut = Cut(line: string, rest: string, hanging: bool)

  /** The cut for `what` when it must wrap: at the limit when a space sits
      there; else after the last space in the window, continuing with the
      hanging indent; else hard at the limit with a '-'. Each cut either puts
      the hanging indent to use for the first time or shortens the text, and
      emits at most `free` columns, or `free + 1` ending in '-'. */
  function CutAt(what: string, free: nat, hasIndent: bool): (c: Cut)
    requires 0 < free < |what|
    ensures (c.hanging && !hasIndent) || (c.hanging == hasIndent && |c.rest| < |what|)
    ensures |c.line| <= free || (|c.line| == free + 1 && c.line[free] == '-')
  {
    if what[free] == ' ' then Cut(what[..free], what[free..], hasIndent)
    else
      var start := WindowStart(free, hasIndent);
      var k := RIndex(what[start..free], ' ');
      if k.Some? then
        var prev := start + k.value;
        Cut(what[..prev], HangingIndent + what[prev + 1..], true)
      else Cut(what[..free] + "-", what[free..], hasIndent)
  }

  /** The lines `fit_to_cols` joins, from `what` with `free` columns after the
      indent. */
  function WrapLines(what: string, indent: string, free: nat, hasIndent: bool): seq<string>
    requires free > 0
    decreases if hasIndent then 0 else 1, |what|
  {
    if !MustWrap(what, free) then [indent + what]
    else
      var c := CutAt(what, free, hasIndent);
      [indent + c.line] + WrapLines(c.rest, indent, free, c.hanging)
  }

  lemma {:induction false} WrapLinesUnfold(what: string, indent: string, free: nat, hasIndent: bool)
    requires free > 0 && MustWrap(what, free)
    ensures var c := CutAt(what, free, hasIndent);
      WrapLines(what, indent, free, hasIndent) == [indent + c.line] + WrapLines(c.rest, indent, free, c.hanging)
  {
  }

  /** `fit_to_cols(what, indent, cols)` for `len(indent) < cols`. */
  method FitToCols(what: string, indent: string, cols: nat) returns (r: string)
    requires |indent| < cols
    ensures r == Join(WrapLines(what, indent, cols - |indent|, false), "\n")
  {
    var lines: seq<string> := [];
    var free := cols - |indent|;
    var rest := what;
    var hasIndent := false;
    while MustWrap(rest, free)
      invariant lines + WrapLines(rest, indent, free, hasIndent) == WrapLines(what, indent, free, false)
      decreases if hasIndent then 0 else 1, |rest|
    {
      ghost var c := CutAt(rest, free, hasIndent);
      WrapLinesUnfold(rest, indent, free, hasIndent);
      AppendAssoc(lines, [indent + c.line], WrapLines(c.rest, indent, free, c.hanging));
      var cutpoint := free;
      var extraIndent := "";
      var line: string;
      if rest[free] != ' ' {
        var start := WindowStart(free, hasIndent);
        var k := RIndex(rest[start..free], ' ');
        if k.Some? {
          var prevSpace := start + k.value;
          line := rest[..prevSpace];
          cutpoint := prevSpace + 1;
          extraIndent := HangingIndent;
        } else {
          line := rest[..free] + "-";
        }
      } else {
        line := rest[..free];
      }
      lines := lines + [indent + line];
      rest := extraIndent + rest[cutpoint..];
      if extraIndent != "" {
        hasIndent := true;
      }
      assert c == Cut(line, rest, hasIndent);
    }
    WrapLinesSingle(rest, indent, free, hasIndent);
    lines := lines + [indent + rest];
    r := Join(lines, "\n");
  }

  /** Every line starts with the indent. */
  lemma {:induction false} WrapLinesIndented(what: string, indent: string, free: nat, hasIndent: bool)
    requires free > 0
    ensures forall line | line in WrapLines(what, indent, free, hasIndent) :: StartsWith(line, indent)
    decreases if hasIndent then 0 else 1, |what|
  {
    if MustWrap(what, free) {
      var c := CutAt(what, free, hasIndent);
      WrapLinesIndented(c.rest, indent, free, c.hanging);
    }
  }

  /** At most `width` columns, or a hard break: one more, ending in '-'. */
  predicate FitsWidth(line: string, width: nat) {
    |line| <= width || (|line| == width + 1 && line[width] == '-')
  }

  /** Every line but the last fits the columns (a hard break is one wider and
      ends in '-'). */
  lemma {:induction false} WrapLinesWidth(what: string, indent: string, free: nat, hasIndent: bool)
    requires free > 0
    ensures var lines := WrapLines(what, indent, free, hasIndent);
      forall i | 0 <= i < |lines| - 1 :: FitsWidth(lines[i], |indent| + free)
    decreases if hasIndent then 0 else 1, |what|
  {
    if MustWrap(what, free) {
      var c := CutAt(what, free, hasIndent);
      WrapLinesWidth(c.rest, indent, free, c.hanging);
      WrapLinesUnfold(what, indent, free, hasIndent);
      CutLineFits(indent, c.line, free);
      ConsFits(indent + c.line, WrapLines(c.rest, indent, free, c.hanging), |indent| + free);
    }
  }

  lemma {:induction false} CutLineFits(indent: string, line: string, free: nat)
    requires |line| <= free || (|line| == free + 1 && line[free] == '-')
    ensures FitsWidth(indent + line, |indent| + free)
  {
    if |line| > free {
      assert (indent + line)[|indent| + free] == line[free];
    }
  }

  lemma {:induction false} ConsFits(line: string, tail: seq<string>, width: nat)
    requires FitsWidth(line, width)
    requires forall i | 0 <= i < |tail| - 1 :: FitsWidth(tail[i], width)
    ensures var lines := [line] + tail; forall i | 0 <= i < |lines| - 1 :: FitsWidth(lines[i], width)
  {
    var lines := [line] + tail;
    forall i | 0 <= i < |lines| - 1 ensures FitsWidth(lines[i], width) {
      if i > 0 {
        assert lines[i] == tail[i - 1];
      }
    }
  }

  /** Text that fits, or has no space to break at, stays one line. */
  lemma {:induction false} WrapLinesSingle(what: string, indent: string, free: nat, hasIndent: bool)
    requires free > 0
    requires |what| <= free || ' ' !in LStrip(what)
    ensures WrapLines(what, indent, free, hasIndent) == [indent + what]
  {
  }

  /** The first line keeps the text up to any space within the first `free`
      columns. */
  lemma {:induction false} WrapFirstLine(what: string, indent: string, free: nat, k: nat)
    requires 0 < free && k <= free && k < |what| && what[k] == ' '
    ensures var lines := WrapLines(what, indent, free, false);
      |lines| >= 1 && StartsWith(lines[0], indent + what[..k])
  {
    if MustWrap(what, free) {
      WrapLinesUnfold(what, indent, free, false);
      var c := CutAt(what, free, false);
      assert |c.line| >= k && c.line[..k] == what[..k] by {
        if what[free] != ' ' {
          var w := what[0..free];
          assert w[k] == ' ';
          var r := RIndex(w, ' ');
          assert r.Some? && r.value >= k;
        }
      }
      assert (indent + c.line)[..|indent| + k] == indent + what[..k];
    } else {
      assert (indent + what)[..|indent| + k] == indent + what[..k];
    }
  }

  /** A cut of text without a newline has none either. */
  lemma {:induction false} CutNoNewline(what: string, free: nat, hasIndent: bool)
    requires 0 < free < |what| && '\n' !in what
    ensures var c := CutAt(what, free, hasIndent); '\n' !in c.line && '\n' !in c.rest
  {
    var c := CutAt(what, free, hasIndent);
    forall i | 0 <= i < |c.line| ensures c.line[i] != '\n' {
      if i < |what| && c.line[i] == what[i] {
        assert what[i] in what;
      }
    }
    forall i | 0 <= i < |c.rest| ensures c.rest[i] != '\n' {
      var j := |what| - |c.rest| + i;
      if 0 <= j < |what| && c.rest[i] == what[j] {
        assert what[j] in what;
      }
    }
  }

  /** Text and indent without a newline wrap into lines without one. */
  lemma {:induction false} WrapLinesNoNewline(what: string, indent: string, free: nat, hasIndent: bool)
    requires free > 0 && '\n' !in what && '\n' !in indent
    ensures forall line | line in WrapLines(what, indent, free, hasIndent) :: '\n' !in line
    decreases if hasIndent then 0 else 1, |what|
  {
    if MustWrap(what, free) {
      var c := CutAt(what, free, hasIndent);
      CutNoNewline(what, free, hasIndent);
      WrapLinesNoNewline(c.rest, indent, free, c.hanging);
      WrapLinesUnfold(what, indent, free, hasIndent);
    }
  }

  /** `s` without its spaces and hyphens. */
  function Squash(s: string): string {
    if s == [] then []
    else (if s[0] == ' ' || s[0] == '-' then [] else [s[0]]) + Squash(s[1..])
  }

  lemma {:induction false} SquashAppend(a: string, b: string)
    ensures Squash(a + b) == Squash(a) + Squash(b)
  {
    if a != [] {
      var head := if a[0] == ' ' || a[0] == '-' then [] else [a[0]];
      assert (a + b)[0] == a[0];
      assert (a + b)[1..] == a[1..] + b;
      assert Squash(a + b) == head + Squash(a[1..] + b);
      SquashAppend(a[1..], b);
      AppendAssoc(head, Squash(a[1..]), Squash(b));
    } else {
      assert a + b == b;
    }
  }

  /** The lines with their indent taken off and their spaces and hyphens
      removed, run together. */
  function SquashedBodies(lines: seq<string>, indent: string): string {
    if lines == [] then []
    else
      (if StartsWith(lines[0], indent) then Squash(lines[0][|indent|..]) else Squash(lines[0]))
      + SquashedBodies(lines[1..], indent)
  }

  lemma {:induction false} SquashedBodiesCons(indent: string, body: string, lines: seq<string>)
    ensures SquashedBodies([indent + body] + lines, indent) == Squash(body) + SquashedBodies(lines, indent)
  {
    assert ([indent + body] + lines)[1..] == lines;
    assert (indent + body)[|indent|..] == body;
  }

  lemma {:induction false} SquashSplit(what: string, i: nat)
    requires i <= |what|
    ensures Squash(what) == Squash(what[..i]) + Squash(what[i..])
  {
    assert what[..i] + what[i..] == what;
    SquashAppend(what[..i], what[i..]);
  }

  /** A cut drops only the space it breaks at, and adds only spaces and the
      '-' of a hard break. */
  lemma {:induction false} CutKeepsText(what: string, free: nat, hasIndent: bool)
    requires 0 < free < |what|
    ensures var c := CutAt(what, free, hasIndent); Squash(c.line) + Squash(c.rest) == Squash(what)
  {
    if what[free] == ' ' {
      SquashSplit(what, free);
    } else {
      var start := WindowStart(free, hasIndent);
      var k := RIndex(what[start..free], ' ');
      if k.Some? {
        SpaceCutKeepsText(what, start + k.value);
      } else {
        HardCutKeepsText(what, free);
      }
    }
  }

  lemma {:induction false} SpaceCutKeepsText(what: string, prev: nat)
    requires prev < |what| && what[prev] == ' '
    ensures Squash(what[..prev]) + Squash(HangingIndent + what[prev + 1..]) == Squash(what)
  {
    SquashAppend(HangingIndent, what[prev + 1..]);
    assert Squash(HangingIndent) == [];
    SquashSplit(what, prev);
    SquashSplit(what[prev..], 1);
    assert what[prev..][1..] == what[prev + 1..];
    assert Squash(what[prev..][..1]) == [];
  }

  lemma {:induction false} HardCutKeepsText(what: string, free: nat)
    requires free <= |what|
    ensures Squash(what[..free] + "-") + Squash(what[free..]) == Squash(what)
  {
    SquashAppend(what[..free], "-");
    assert Squash("-") == [];
    SquashSplit(what, free);
  }

  /** Wrapping loses nothing but spaces and the hyphens of hard breaks: the
      lines, indent removed, hold exactly the other characters of `what`, in
      order. */
  lemma {:induction false} WrapLinesKeepsText(what: string, indent: string, free: nat, hasIndent: bool)
    requires free > 0
    ensures SquashedBodies(WrapLines(what, indent, free, hasIndent), indent) == Squash(what)
    decreases if hasIndent then 0 else 1, |what|
  {
    if !MustWrap(what, free) {
      SquashedBodiesCons(indent, what, []);
    } else {
      var c := CutAt(what, free, hasIndent);
      WrapLinesKeepsText(c.rest, indent, free, c.hanging);
      SquashedBodiesCons(indent, c.line, WrapLines(c.rest, indent, free, c.hanging));
      CutKeepsText(what, free, hasIndent);
    }
  }

  // ---------------------------------------------------------------------
  // The loop as written

  /** The cut as the source computes it: the position of the last space in
      the window is used in `what` without adding the window's start. */
  function CutAsWritten(what: string, free: nat, hasIndent: bool): Cut
    requires 0 < free < |what|
  {
    if what[free] == ' ' then Cut(what[..free], what[free..], hasIndent)
    else
      var start := WindowStart(free, hasIndent);
      var k := RIndex(what[start..free], ' ');
      if k.Some? then Cut(what[..k.value], HangingIndent + what[k.value + 1..], true)
      else Cut(what[..free] + "-", what[free..], hasIndent)
  }

  /** The loop of `fit_to_cols` as written, run for at most `fuel` iterations:
      `None` when it has not stopped by then. */
  function FitToColsAsWritten(what: string, indent: string, free: nat, hasIndent: bool, fuel: nat): Option<seq<string>>
    requires free > 0
    decreases fuel
  {
    if !MustWrap(what, free) then Some([indent + what])
    else if fuel == 0 then None
    else
      var c := CutAsWritten(what, free, hasIndent);
      match FitToColsAsWritten(c.rest, indent, free, c.hanging, fuel - 1)
      case Some(rest) => Some([indent + c.line] + rest)
      case None => None
  }

  /** Before the hanging indent is in use the window starts at 0, so the code
      as written cuts exactly where `WrapLines` does. */
  lemma {:induction false} AsWrittenAgreesUnindented(what: string, free: nat)
    requires 0 < free < |what|
    ensures CutAsWritten(what, free, false) == CutAt(what, free, false)
  {
  }

  /** A space after the first non-space character survives `lstrip()`. */
  lemma {:induction false} SpaceAfterWord(s: string, i: nat, j: nat)
    requires i < j < |s| && !IsSpace(s[i]) && s[j] == ' '
    ensures ' ' in LStrip(s)
  {
    var r := LStrip(s);
    LStripSpec(s);
    assert |s| - |r| <= i;
    assert r[j - (|s| - |r|)] == s[j];
  }

  /** `rindex` finds the space at `k` when none comes after it. */
  lemma {:induction false} RIndexAt(s: string, c: char, k: nat)
    requires k < |s| && s[k] == c && forall j | k < j < |s| :: s[j] != c
    ensures RIndex(s, c) == Some(k)
  {
    assert c in s;
  }

  lemma {:induction false} DropConcat(a: string, b: string, i: nat)
    requires i <= |a|
    ensures (a + b)[i..] == a[i..] + b
  {
  }

  lemma {:induction false} TakeConcat(a: string, b: string, i: nat)
    requires i <= |a|
    ensures (a + b)[..i] == a[..i]
  {
  }

  /** One iteration of the loop as written. */
  lemma {:induction false} AsWrittenUnfold(what: string, indent: string, free: nat, hasIndent: bool, fuel: nat)
    requires free > 0 && MustWrap(what, free) && fuel > 0
    ensures var c := CutAsWritten(what, free, hasIndent);
      FitToColsAsWritten(what, indent, free, hasIndent, fuel).None?
      <==> FitToColsAsWritten(c.rest, indent, free, c.hanging, fuel - 1).None?
  {
  }

  /** A state the loop as written maps to itself (with the hanging indent
      in use) is never left. */
  lemma {:induction false} FixedPointLoops(t: string, indent: string, free: nat, fuel: nat)
    requires free > 0 && MustWrap(t, free)
    requires CutAsWritten(t, free, true).rest == t && CutAsWritten(t, free, true).hanging
    ensures FitToColsAsWritten(t, indent, free, true, fuel).None?
  {
    if fuel > 0 {
      AsWrittenUnfold(t, indent, free, true, fuel);
      FixedPointLoops(t, indent, free, fuel - 1);
    }
  }

  /** The text the counterexample is built from: nine 'a', a space, an 'a'. */
  const Word := "aaaaaaaaa a"

  /** The state the loop as written cannot leave: the hanging indent, then
      `Word`, with the hanging indent in use and twenty free columns. */
  const StuckText := HangingIndent + Word

  /** The counterexample input: eleven 'a', a space, then `Word`. */
  const LoopingInput := "aaaaaaaaaaa" + (" " + Word)

  /** The loop as written maps the stuck state to itself: the last space of
      the window `what[10:20]` is at 9 in the window and at 19 in `what`, so
      it keeps `what[10:]` and puts the hanging indent back in front. The
      corrected cut is at 19. */
  lemma StuckStep()
    ensures MustWrap(StuckText, 20)
    ensures CutAsWritten(StuckText, 20, true) == Cut(StuckText[..9], StuckText, true)
    ensures CutAt(StuckText, 20, true) == Cut(HangingIndent + "aaaaaaaaa", HangingIndent + "a", true)
  {
    assert StuckText[10] == 'a' && StuckText[19] == ' ' && StuckText[20] == 'a';
    SpaceAfterWord(StuckText, 10, 19);
    DropConcat(HangingIndent, Word, 10);
    var w := StuckText[10..20];
    assert w == Word[..10];
    assert w[9] == ' ';
    RIndexAt(w, ' ', 9);
    assert StuckText[..19] == HangingIndent + "aaaaaaaaa";
    assert StuckText[20..] == "a";
  }

  /** The first cut, the same in both readings: after the eleven 'a', going on
      with the hanging indent in front of `Word`. */
  lemma FirstCut()
    ensures MustWrap(LoopingInput, 20)
    ensures CutAsWritten(LoopingInput, 20, false) == Cut("aaaaaaaaaaa", StuckText, true)
    ensures CutAt(LoopingInput, 20, false) == CutAsWritten(LoopingInput, 20, false)
  {
    var xs := "aaaaaaaaaaa";
    var s0 := LoopingInput;
    assert s0[0] == 'a' && s0[11] == ' ' && s0[20] == 'a';
    SpaceAfterWord(s0, 0, 11);
    var w := s0[0..20];
    assert w[11] == ' ';
    assert forall j | 11 < j < |w| :: w[j] == 'a';
    RIndexAt(w, ' ', 11);
    TakeConcat(xs, " " + Word, 11);
    DropConcat(xs, " " + Word, 11);
    assert s0[12..] == (" " + Word)[1..];
    assert (" " + Word)[1..] == Word;
  }

  /** `fit_to_cols("a" * 11 + " " + "a" * 9 + " a", indent, len(indent) + 20)`
      never returns, for every indent (the empty one included): one
      iteration leads to the stuck state. */
  lemma FitToColsLoopsForever(indent: string, fuel: nat)
    ensures FitToColsAsWritten(LoopingInput, indent, 20, false, fuel).None?
  {
    FirstCut();
    StuckStep();
    LoopsAfterOneCut(LoopingInput, StuckText, indent, 20, fuel);
  }

  /** A first cut that lands in a fixed point is never left either. */
  lemma {:induction false} LoopsAfterOneCut(s: string, t: string, indent: string, free: nat, fuel: nat)
    requires free > 0 && MustWrap(s, free) && MustWrap(t, free)
    requires CutAsWritten(s, free, false).rest == t && CutAsWritten(s, free, false).hanging
    requires CutAsWritten(t, free, true).rest == t && CutAsWritten(t, free, true).hanging
    ensures FitToColsAsWritten(s, indent, free, false, fuel).None?
  {
    if fuel > 0 {
      AsWrittenUnfold(s, indent, free, false, fuel);
      FixedPointLoops(t, indent, free, fuel - 1);
    }
  }

  /** The corrected loop on the same input stops with three lines. */
  lemma FitToColsExample(indent: string)
    ensures WrapLines(LoopingInput, indent, 20, false)
      == [indent + "aaaaaaaaaaa", indent + (HangingIndent + "aaaaaaaaa"), indent + (HangingIndent + "a")]
  {
    FirstCut();
    StuckStep();
    ThreeLines(LoopingInput, indent, 20);
  }

  /** Two cuts, the second leaving text that fits, give three lines. */
  lemma {:induction false} ThreeLines(s: string, indent: string, free: nat)
    requires free > 0 && MustWrap(s, free)
    requires CutAt(s, free, false).hanging && MustWrap(CutAt(s, free, false).rest, free)
    requires var d := CutAt(CutAt(s, free, false).rest, free, true); d.hanging && |d.rest| <= free
    ensures var c := CutAt(s, free, false); var d := CutAt(c.rest, free, true);
      WrapLines(s, indent, free, false) == [indent + c.line, indent + d.line, indent + d.rest]
  {
    var c := CutAt(s, free, false);
    var d := CutAt(c.rest, free, true);
    WrapLinesUnfold(s, indent, free, false);
    WrapLinesUnfold(c.rest, indent, free, true);
    WrapLinesSingle(d.rest, indent, free, true);
  }
}
