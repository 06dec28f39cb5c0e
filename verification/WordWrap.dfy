/**
 The word wrap of cairo_helpers.c. Whether a stretch of text fits the surface is cairo's to say:
 `fits` is any predicate on index ranges.
 */
module WordWrap {
  /** isspace in the C locale. */
  predicate IsSpace(c: char) {
    c == ' ' || '\t' <= c <= '\r'
  }

  lemma SixCharactersAreSpace(c: char)
    ensures IsSpace(c) <==> c in [' ', '\t', '\n', 11 as char, 12 as char, '\r']
  {
  }

  /** A printed line: text[from..to]. */
  datatype Line = Line(from: nat, to: nat)

  type Measure = (nat, nat) -> bool

  /** A word may end here: before whitespace, or at the end of the text. */
  predicate WordEnd(text: string, p: nat) {
    p == |text| || (p < |text| && IsSpace(text[p]))
  }

  function NextEnd(text: string, p: nat): (q: nat)
    requires p <= |text|
    ensures p <= q <= |text| && WordEnd(text, q)
    ensures forall k :: p <= k < q ==> !WordEnd(text, k)
    decreases |text| - p
  {
    if WordEnd(text, p) then p else NextEnd(text, p + 1)
  }

  // ---- What a wrapped text is ----

  /** Every way to end a line that starts at s, up to e, fits. */
  ghost predicate AllFit(text: string, fits: Measure, s: nat, e: nat) {
    forall p :: s <= p <= e && WordEnd(text, p) ==> fits(s, p)
  }

  /** A line that fits, and that the next word would overflow (or the text ends there). */
  ghost predicate FullLine(text: string, fits: Measure, s: nat, e: nat) {
    && s < e <= |text| && WordEnd(text, e) && AllFit(text, fits, s, e)
    && if e == |text| then !IsSpace(text[e - 1]) else e + 1 < |text| && !fits(s, NextEnd(text, e + 1))
  }

  /** A single word too long for any line, with the space before it if the line begins with one. */
  ghost predicate LongWord(text: string, fits: Measure, s: nat, e: nat) {
    && s < |text| && !fits(s, e)
    && (e == NextEnd(text, s) || (WordEnd(text, s) && fits(s, s) && s + 1 < |text| && e == NextEnd(text, s + 1)))
  }

  ghost predicate IsLine(text: string, fits: Measure, s: nat, e: nat) {
    FullLine(text, fits, s, e) || LongWord(text, fits, s, e)
  }

  /** Where line k starts: one separator after the line before. */
  function Start(lines: seq<Line>, k: nat): nat
    requires k <= |lines|
  {
    if k == 0 then 0 else lines[k - 1].to + 1
  }

  ghost predicate Linked(text: string, fits: Measure, lines: seq<Line>, k: nat)
    requires k < |lines|
  {
    lines[k].from == Start(lines, k) < |text| && IsLine(text, fits, lines[k].from, lines[k].to)
  }

  ghost predicate Chain(text: string, fits: Measure, lines: seq<Line>) {
    forall k :: 0 <= k < |lines| ==> Linked(text, fits, lines, k)
  }

  /** The rest of the text fits one line and ends in whitespace: it is never printed. */
  ghost predicate Drops(text: string, fits: Measure, s: nat) {
    s < |text| && IsSpace(text[|text| - 1]) && AllFit(text, fits, s, |text| - 1)
  }

  ghost predicate Wraps(text: string, fits: Measure, lines: seq<Line>) {
    && Chain(text, fits, lines)
    && (Start(lines, |lines|) >= |text| || Drops(text, fits, Start(lines, |lines|)))
  }

  lemma ChainExtend(text: string, fits: Measure, lines: seq<Line>, l: Line)
    requires Chain(text, fits, lines)
    requires l.from == Start(lines, |lines|) < |text| && IsLine(text, fits, l.from, l.to)
    ensures Chain(text, fits, lines + [l])
  {
    var longer := lines + [l];
    forall k | 0 <= k < |longer|
      ensures Linked(text, fits, longer, k)
    {
      if k < |lines| {
        assert Linked(text, fits, lines, k);
      }
    }
  }

  lemma ChainFront(text: string, fits: Measure, lines: seq<Line>)
    requires Chain(text, fits, lines) && lines != []
    ensures Chain(text, fits, lines[..|lines| - 1])
  {
    var front := lines[..|lines| - 1];
    forall k | 0 <= k < |front|
      ensures Linked(text, fits, front, k)
    {
      assert Linked(text, fits, lines, k);
    }
  }

  lemma NextEndIs(text: string, p: nat, q: nat)
    requires p <= q <= |text| && WordEnd(text, q)
    requires forall k :: p <= k < q ==> !WordEnd(text, k)
    ensures NextEnd(text, p) == q
  {
    assert WordEnd(text, NextEnd(text, p));
  }

  // ---- The code ----

  /** cairo_render_text: prints lines greedily, going back one word when a line overflows. */
  method RenderText(text: string, fits: Measure) returns (lines: seq<Line>)
    ensures Wraps(text, fits, lines)
  {
    var lnStart, prevSpace, nextSpace := 0, 0, 0;
    lines := [];
    ghost var finished := false;
    while nextSpace < |text|
      invariant lnStart <= prevSpace <= nextSpace <= |text|
      invariant finished ==> nextSpace == |text| && Wraps(text, fits, lines)
      invariant !finished ==> Chain(text, fits, lines) && lnStart == Start(lines, |lines|)
      invariant !finished ==> forall p :: lnStart <= p < nextSpace && WordEnd(text, p) ==> fits(lnStart, p)
      invariant !finished ==>
          (nextSpace == prevSpace == lnStart) || (nextSpace == prevSpace + 1 && WordEnd(text, prevSpace))
      decreases |text| - lnStart, |text| - nextSpace, !finished
    {
      ghost var wordStart := nextSpace;
      while nextSpace < |text| && !IsSpace(text[nextSpace])
        invariant wordStart <= nextSpace <= |text|
        invariant forall k :: wordStart <= k < nextSpace ==> !WordEnd(text, k)
      {
        nextSpace := nextSpace + 1;
      }
      NextEndIs(text, wordStart, nextSpace);

      if fits(lnStart, nextSpace) {
        if nextSpace < |text| {
          prevSpace := nextSpace;
          nextSpace := nextSpace + 1;
        } else {
          assert !WordEnd(text, nextSpace - 1);
          ChainExtend(text, fits, lines, Line(lnStart, nextSpace));
          lines := lines + [Line(lnStart, nextSpace)];
          finished := true;
        }
      } else {
        if prevSpace != lnStart {
          nextSpace := prevSpace;
        }
        ChainExtend(text, fits, lines, Line(lnStart, nextSpace));
        lines := lines + [Line(lnStart, nextSpace)];
        if nextSpace == |text| {
          finished := true;
          break;
        }
        lnStart := nextSpace + 1;
        prevSpace := nextSpace + 1;
        nextSpace := nextSpace + 1;
      }
    }
  }

  // ---- What it means for the reader ----

  lemma LineUnique(text: string, fits: Measure, s: nat, e1: nat, e2: nat)
    requires IsLine(text, fits, s, e1) && IsLine(text, fits, s, e2)
    ensures e1 == e2
  {
  }

  lemma DroppedHasNoLine(text: string, fits: Measure, s: nat, e: nat)
    requires Drops(text, fits, s)
    ensures !IsLine(text, fits, s, e)
  {
    var last := |text| - 1;
    assert WordEnd(text, last);
    if s < e < last {
      assert NextEnd(text, e + 1) <= last && WordEnd(text, NextEnd(text, e + 1));
    }
  }

  lemma {:induction false} SamePrefix(text: string, fits: Measure, a: seq<Line>, b: seq<Line>, k: nat)
    requires Chain(text, fits, a) && Chain(text, fits, b) && k <= |a| && k <= |b|
    ensures forall j :: 0 <= j < k ==> a[j] == b[j]
  {
    if k == 0 {
    } else {
      SamePrefix(text, fits, a, b, k - 1);
      assert Linked(text, fits, a, k - 1) && Linked(text, fits, b, k - 1);
      LineUnique(text, fits, a[k - 1].from, a[k - 1].to, b[k - 1].to);
    }
  }

  /** No longer chain continues a finished wrap. */
  lemma StopsThere(text: string, fits: Measure, a: seq<Line>, b: seq<Line>)
    requires Wraps(text, fits, a) && |a| < |b| && forall j :: 0 <= j < |a| ==> a[j] == b[j]
    ensures !Linked(text, fits, b, |a|)
  {
    var s := Start(a, |a|);
    assert s == Start(b, |a|);
    if s < |text| {
      DroppedHasNoLine(text, fits, s, b[|a|].to);
    }
  }

  /** The description above leaves no choice: a text wraps in one way only. */
  lemma WrapUnique(text: string, fits: Measure, a: seq<Line>, b: seq<Line>)
    requires Wraps(text, fits, a) && Wraps(text, fits, b)
    ensures a == b
  {
    var k := if |a| < |b| then |a| else |b|;
    SamePrefix(text, fits, a, b, k);
    if |a| < |b| {
      StopsThere(text, fits, a, b);
    } else if |b| < |a| {
      StopsThere(text, fits, b, a);
    }
  }

  /** The printed lines, each followed by the one whitespace character it was broken at. */
  function Rejoin(text: string, lines: seq<Line>): string
    requires forall l :: l in lines ==> l.from <= l.to <= |text|
  {
    if lines == [] then ""
    else
      var l := lines[|lines| - 1];
      Rejoin(text, lines[..|lines| - 1]) + text[l.from..l.to] + (if l.to < |text| then [text[l.to]] else [])
  }

  lemma LinesInside(text: string, fits: Measure, lines: seq<Line>)
    requires Chain(text, fits, lines)
    ensures forall l :: l in lines ==> l.from <= l.to <= |text| && WordEnd(text, l.to)
  {
    forall l | l in lines
      ensures l.from <= l.to <= |text| && WordEnd(text, l.to)
    {
      var k :| 0 <= k < |lines| && lines[k] == l;
      assert Linked(text, fits, lines, k);
    }
  }

  lemma LineJoined(text: string, from: nat, to: nat)
    requires from <= to <= |text|
    ensures text[..from] + text[from..to] + (if to < |text| then [text[to]] else [])
         == if to < |text| then text[..to + 1] else text
  {
  }

  lemma {:induction false} RejoinPrefix(text: string, fits: Measure, lines: seq<Line>)
    requires Chain(text, fits, lines)
    requires forall l :: l in lines ==> l.from <= l.to <= |text|
    ensures var n := Start(lines, |lines|); Rejoin(text, lines) == if n <= |text| then text[..n] else text
    decreases |lines|
  {
    if lines == [] {
    } else {
      var front, l := lines[..|lines| - 1], lines[|lines| - 1];
      ChainFront(text, fits, lines);
      RejoinPrefix(text, fits, front);
      assert Linked(text, fits, lines, |front|);
      assert l.from == Start(front, |front|);
      LineJoined(text, l.from, l.to);
    }
  }

  /**
   Nothing is lost, repeated or reordered, except that a text ending in whitespace loses the end
   that still fits one line.
   */
  lemma NothingLost(text: string, fits: Measure, lines: seq<Line>)
    requires Wraps(text, fits, lines)
    ensures forall l :: l in lines ==> l.from <= l.to <= |text| && (l.to < |text| ==> IsSpace(text[l.to]))
    ensures Rejoin(text, lines) == text
       <==> !(Start(lines, |lines|) < |text| && IsSpace(text[|text| - 1]) && fits(Start(lines, |lines|), |text| - 1))
    ensures text == "" || !IsSpace(text[|text| - 1]) ==> Rejoin(text, lines) == text
  {
    LinesInside(text, fits, lines);
    RejoinPrefix(text, fits, lines);
  }

  /** Leaving out characters at its front never makes a stretch too wide. */
  ghost predicate Shrinks(text: string, fits: Measure) {
    forall s: nat, t: nat, e: nat :: s <= t <= e <= |text| && fits(s, e) ==> fits(t, e)
  }

  /** The text ends in whitespace, and the word before that begins at a (it may be empty). */
  predicate LastWordAt(text: string, a: nat) {
    && a < |text| && IsSpace(text[|text| - 1]) && (a == 0 || IsSpace(text[a - 1]))
    && forall k :: a <= k < |text| - 1 ==> !IsSpace(text[k])
  }

  /** Where the word that ends at p begins. */
  function WordStart(text: string, p: nat): (a: nat)
    requires p <= |text|
    ensures a <= p && (a == 0 || IsSpace(text[a - 1])) && forall k :: a <= k < p ==> !IsSpace(text[k])
    ensures p + 1 == |text| && IsSpace(text[p]) ==> LastWordAt(text, a)
  {
    if p == 0 || IsSpace(text[p - 1]) then p else WordStart(text, p - 1)
  }

  /** The front of the text breaks into whole lines, so that another begins at p. */
  ghost predicate BreaksAt(text: string, fits: Measure, p: nat) {
    exists ls :: Chain(text, fits, ls) && Start(ls, |ls|) == p
  }

  /** The last word hangs on a line that begins with the separator before it, and together they do not fit. */
  ghost predicate SavedBySeparator(text: string, fits: Measure, a: nat)
    requires a < |text|
  {
    a >= 1 && BreaksAt(text, fits, a - 1) && fits(a - 1, a - 1) && !fits(a - 1, |text| - 1)
  }

  lemma StartAfterSpace(text: string, fits: Measure, lines: seq<Line>)
    requires Chain(text, fits, lines) && 0 < Start(lines, |lines|) <= |text|
    ensures IsSpace(text[Start(lines, |lines|) - 1])
  {
    assert Linked(text, fits, lines, |lines| - 1);
  }

  lemma NoStartInLastWord(text: string, fits: Measure, lines: seq<Line>, a: nat)
    requires Chain(text, fits, lines) && LastWordAt(text, a)
    ensures Start(lines, |lines|) <= a || Start(lines, |lines|) >= |text|
  {
    if 0 < Start(lines, |lines|) < |text| {
      StartAfterSpace(text, fits, lines);
    }
  }

  lemma {:induction false} StartsGrow(text: string, fits: Measure, lines: seq<Line>, j: nat, k: nat)
    requires Chain(text, fits, lines) && j <= k <= |lines|
    ensures Start(lines, j) <= Start(lines, k)
    decreases k - j
  {
    if j == k {
    } else {
      assert Linked(text, fits, lines, k - 1);
      StartsGrow(text, fits, lines, j, k - 1);
    }
  }

  /** Two ways to break the front of a text differ in length only. */
  lemma ShorterIsPrefix(text: string, fits: Measure, a: seq<Line>, b: seq<Line>)
    requires Chain(text, fits, a) && Chain(text, fits, b) && Start(a, |a|) < Start(b, |b|)
    ensures |a| < |b| && b[|a|].from == Start(a, |a|) && b[|a|].to < Start(b, |b|) && Linked(text, fits, b, |a|)
  {
    if |b| <= |a| {
      SamePrefix(text, fits, a, b, |b|);
      StartsGrow(text, fits, a, |b|, |a|);
    } else {
      SamePrefix(text, fits, a, b, |a|);
      assert Linked(text, fits, b, |a|);
      StartsGrow(text, fits, b, |a| + 1, |b|);
    }
  }

  lemma DroppedEnd(text: string, fits: Measure, lines: seq<Line>, a: nat)
    requires Wraps(text, fits, lines) && Shrinks(text, fits) && LastWordAt(text, a) && Start(lines, |lines|) < |text|
    ensures fits(a, |text| - 1) && !SavedBySeparator(text, fits, a)
  {
    var s, last := Start(lines, |lines|), |text| - 1;
    NoStartInLastWord(text, fits, lines, a);
    assert WordEnd(text, last) && fits(s, last);
    if SavedBySeparator(text, fits, a) {
      var ls :| Chain(text, fits, ls) && Start(ls, |ls|) == a - 1;
      assert s == a;
      ShorterIsPrefix(text, fits, ls, lines);
    }
  }

  lemma PrintedEnd(text: string, fits: Measure, lines: seq<Line>, a: nat)
    requires Chain(text, fits, lines) && LastWordAt(text, a) && Start(lines, |lines|) >= |text|
    ensures !fits(a, |text| - 1) || SavedBySeparator(text, fits, a)
  {
    var front, l, last := lines[..|lines| - 1], lines[|lines| - 1], |text| - 1;
    assert Linked(text, fits, lines, |front|);
    ChainFront(text, fits, lines);
    assert Start(front, |front|) == l.from;
    NoStartInLastWord(text, fits, front, a);
    assert WordEnd(text, last);
    assert LongWord(text, fits, l.from, l.to) && l.to == last;
    if l.from < a {
      assert WordEnd(text, a - 1);
      assert BreaksAt(text, fits, l.from);
    }
  }

  /**
   When a text that ends in whitespace loses its end, in terms of the text: exactly when the last word fits a line
   of its own, unless a line begins at the second of two separators before it and the two of them are too wide.
   */
  lemma LosesItsEndExactly(text: string, fits: Measure, lines: seq<Line>, a: nat)
    requires Wraps(text, fits, lines) && Shrinks(text, fits) && LastWordAt(text, a)
    ensures forall l :: l in lines ==> l.from <= l.to <= |text|
    ensures Rejoin(text, lines) != text <==> fits(a, |text| - 1) && !SavedBySeparator(text, fits, a)
  {
    LinesInside(text, fits, lines);
    RejoinPrefix(text, fits, lines);
    if Start(lines, |lines|) < |text| {
      DroppedEnd(text, fits, lines, a);
    } else {
      PrintedEnd(text, fits, lines, a);
    }
  }

  /** After a single separator, or with no other word, it is exactly when the last word fits. */
  lemma LosesLastWordThatFits(text: string, fits: Measure, lines: seq<Line>, a: nat)
    requires Wraps(text, fits, lines) && Shrinks(text, fits) && LastWordAt(text, a)
    requires a == 0 || (a >= 2 && !IsSpace(text[a - 2]))
    ensures forall l :: l in lines ==> l.from <= l.to <= |text|
    ensures Rejoin(text, lines) != text <==> fits(a, |text| - 1)
  {
    LosesItsEndExactly(text, fits, lines, a);
    if a >= 2 && BreaksAt(text, fits, a - 1) {
      var ls :| Chain(text, fits, ls) && Start(ls, |ls|) == a - 1;
      StartAfterSpace(text, fits, ls);
    }
  }

  /** A doubled separator can save the last word: where two characters are too wide, "a b " loses its b, "a  b " does not. */
  lemma DoubledSeparatorSaves(single: seq<Line>, double: seq<Line>)
    requires Wraps("a b ", (s: nat, e: nat) => e <= s + 1, single)
    requires Wraps("a  b ", (s: nat, e: nat) => e <= s + 1, double)
    ensures forall l :: l in single ==> l.from <= l.to <= 4
    ensures forall l :: l in double ==> l.from <= l.to <= 5
    ensures Rejoin("a b ", single) != "a b " && Rejoin("a  b ", double) == "a  b "
  {
    var fits := (s: nat, e: nat) => e <= s + 1;
    LosesLastWordThatFits("a b ", fits, single, 2);
    var first := [Line(0, 1)];
    assert NextEnd("a  b ", 2) == 2 && FullLine("a  b ", fits, 0, 1);
    assert Linked("a  b ", fits, first, 0);
    assert Chain("a  b ", fits, first) && Start(first, 1) == 2;
    LosesItsEndExactly("a  b ", fits, double, 3);
  }

  /** So "a " prints nothing at all, even where there is room. */
  lemma TrailingSpaceLosesText(lines: seq<Line>)
    requires Wraps("a ", (_, _) => true, lines)
    ensures lines == []
  {
    assert Wraps("a ", (_, _) => true, []);
    WrapUnique("a ", (_, _) => true, lines, []);
  }

  /** A printed line fits, or has no whitespace after its first character. */
  lemma LinesFitOrAreOneWord(text: string, fits: Measure, lines: seq<Line>, k: nat)
    requires Wraps(text, fits, lines) && k < |lines|
    ensures var l := lines[k];
      fits(l.from, l.to) || forall p :: l.from < p < l.to && p < |text| ==> !IsSpace(text[p])
  {
    var l := lines[k];
    assert Linked(text, fits, lines, k);
    if LongWord(text, fits, l.from, l.to) {
      forall p | l.from < p < l.to && p < |text|
        ensures !IsSpace(text[p])
      {
        assert !WordEnd(text, p);
      }
    }
  }

  /** Greedy: a fitting line that is not the last could not have taken one word more. */
  lemma LinesAreGreedy(text: string, fits: Measure, lines: seq<Line>, k: nat)
    requires Wraps(text, fits, lines) && k < |lines|
    requires fits(lines[k].from, lines[k].to) && lines[k].to < |text|
    ensures !fits(lines[k].from, NextEnd(text, lines[k].to + 1))
  {
    assert Linked(text, fits, lines, k);
  }
}
