/**
 * split_text: cuts the linear text of a page map into overlapping sections
 * of about MAX_SECTION_LENGTH characters. A section ends after a sentence
 * end if one lies a little beyond the limit, else after the last word break
 * there; it starts after the nearest earlier sentence end (or the earliest
 * word break) within a bounded look-back. Each section is tagged with the
 * page its first character lies on.
 *
 * The scans are specified declaratively (SectionEnd, SectionStart, in terms
 * of the first or last character of a class in a window); the methods with
 * the source's loops are proved to compute them. The function Cuts is the
 * sequence of [lo, hi) bounds the main loop produces.
 */
module Sectionizer {
  import opened Wrappers
  import opened PyText
  import opened PageMapper

  const MAX_SECTION_LENGTH: nat := 1000
  const SENTENCE_SEARCH_LIMIT: nat := 100
  const SECTION_OVERLAP: nat := 100

  const SENTENCE_ENDINGS: set<char> := {'.', '!', '?'}
  const WORDS_BREAKS: set<char> := {',', ';', ':', ' ', '(', ')', '[', ']', '{', '}', '\t', '\n'}

  /** The bounds [lo, hi) of one section in the linear text. */
  datatype Cut = Cut(lo: nat, hi: nat)

  /** One yielded pair: the section text and the page it starts on. */
  datatype Section = Section(content: string, page: int)

  // ---------------------------------------------------------------------
  // The forward scan (lines 134-155)
  // ---------------------------------------------------------------------

  /**
   * The end of the section whose loop-head start is `start`: the text end if
   * MAX characters do not fit; otherwise one past the first sentence end at
   * or after start + MAX within the search limit, or failing that one past
   * the last word break before the limit, or failing that one past the limit.
   */
  function SectionEnd(text: string, start: nat): (end: nat)
    ensures end <= |text| && end <= start + MAX_SECTION_LENGTH + SENTENCE_SEARCH_LIMIT + 1
    ensures start + MAX_SECTION_LENGTH <= |text| ==> start + MAX_SECTION_LENGTH <= end
    ensures start + MAX_SECTION_LENGTH > |text| ==> end == |text|
    ensures end < |text| ==> start + MAX_SECTION_LENGTH < end
  {
    var lo := start + MAX_SECTION_LENGTH;
    if lo > |text| then |text|
    else
      var limit := if lo + SENTENCE_SEARCH_LIMIT < |text| then lo + SENTENCE_SEARCH_LIMIT else |text|;
      var e := FirstIn(text, lo, limit, SENTENCE_ENDINGS);
      var w := LastIn(text, lo, e, WORDS_BREAKS);
      var cut := if e < |text| && text[e] !in SENTENCE_ENDINGS && w >= lo then w else e;
      if cut < |text| then cut + 1 else cut
  }

  /**
   * What the forward cut means when MAX characters fit: the section ends
   * right after the first sentence end in text[lo..lo + SSL] (lo = start +
   * MAX); with none there, right after the last word break in
   * text[lo..lo + SSL), or else right after position lo + SSL; a scan that
   * reaches the text end first ends the section there.
   */
  lemma ForwardCut(text: string, start: nat)
    requires start + MAX_SECTION_LENGTH <= |text|
    ensures var lo, end := start + MAX_SECTION_LENGTH, SectionEnd(text, start);
      && (end == |text| ==> NoneIn(text, lo, |text| - 1, SENTENCE_ENDINGS))
      && (end < |text| ==>
            || (text[end - 1] in SENTENCE_ENDINGS && NoneIn(text, lo, end - 1, SENTENCE_ENDINGS))
            || (&& NoneIn(text, lo, lo + SENTENCE_SEARCH_LIMIT + 1, SENTENCE_ENDINGS)
                && lo < end <= lo + SENTENCE_SEARCH_LIMIT
                && text[end - 1] in WORDS_BREAKS
                && NoneIn(text, end, lo + SENTENCE_SEARCH_LIMIT, WORDS_BREAKS))
            || (&& NoneIn(text, lo, lo + SENTENCE_SEARCH_LIMIT + 1, SENTENCE_ENDINGS)
                && end == lo + SENTENCE_SEARCH_LIMIT + 1
                && NoneIn(text, lo, lo + SENTENCE_SEARCH_LIMIT, WORDS_BREAKS)))
  {
    var lo := start + MAX_SECTION_LENGTH;
    var limit := if lo + SENTENCE_SEARCH_LIMIT < |text| then lo + SENTENCE_SEARCH_LIMIT else |text|;
    var e := FirstIn(text, lo, limit, SENTENCE_ENDINGS);
    var w := LastIn(text, lo, e, WORDS_BREAKS);
    if e < |text| && text[e] !in SENTENCE_ENDINGS {
      assert e == lo + SENTENCE_SEARCH_LIMIT;
    }
  }

  /** Lines 134-155. */
  method ScanForward(text: string, start: nat) returns (end: nat)
    ensures end == SectionEnd(text, start)
  {
    var length := |text|;
    var lastWord: int := -1;
    end := start + MAX_SECTION_LENGTH;
    if end > length {
      end := length;
    } else {
      ghost var lo := end;
      while end < length && end - start - MAX_SECTION_LENGTH < SENTENCE_SEARCH_LIMIT && text[end] !in SENTENCE_ENDINGS
        invariant lo == start + MAX_SECTION_LENGTH <= end <= length
        invariant end <= lo + SENTENCE_SEARCH_LIMIT
        invariant NoneIn(text, lo, end, SENTENCE_ENDINGS)
        invariant lastWord == (if LastIn(text, lo, end, WORDS_BREAKS) >= lo then LastIn(text, lo, end, WORDS_BREAKS) else -1)
      {
        if text[end] in WORDS_BREAKS {
          lastWord := end;
        }
        end := end + 1;
      }
      ghost var limit := if lo + SENTENCE_SEARCH_LIMIT < length then lo + SENTENCE_SEARCH_LIMIT else length;
      FirstInAt(text, lo, limit, SENTENCE_ENDINGS, end);
      if end < length && text[end] !in SENTENCE_ENDINGS && lastWord > 0 {
        end := lastWord;
      }
    }
    if end < length {
      end := end + 1;
    }
  }

  // ---------------------------------------------------------------------
  // The backward scan (lines 157-169)
  // ---------------------------------------------------------------------

  /** The look-back floor: the scan stops at 0 or at end - MAX - 2 * SSL. */
  function Floor(end: int): nat
  {
    if end - MAX_SECTION_LENGTH - 2 * SENTENCE_SEARCH_LIMIT > 0 then end - MAX_SECTION_LENGTH - 2 * SENTENCE_SEARCH_LIMIT else 0
  }

  /**
   * The start of the section whose loop-head start is `start` and whose end
   * is `end`: the scan walks back from `start` to the nearest sentence end
   * above the floor; finding none it settles on the earliest word break it
   * passed; the section then starts one past that position (unless at 0).
   */
  function SectionStart(text: string, start: nat, end: int): (s: nat)
    requires start < |text|
    ensures Min(start, Floor(end)) <= s <= start + 1
  {
    var floor := Floor(end);
    var stop := if start <= floor then start else LastIn(text, floor + 1, start + 1, SENTENCE_ENDINGS);
    var w := FirstIn(text, stop + 1, start + 1, WORDS_BREAKS);
    var cut := if text[stop] !in SENTENCE_ENDINGS && w <= start then w else stop;
    if cut > 0 then cut + 1 else cut
  }

  /**
   * What the backward cut means: a section that starts after a sentence end
   * starts after the last one up to `start`; if the look-back window
   * (floor, start] holds a sentence end the section starts after one; if it
   * holds none but holds a word break, the section starts after the
   * earliest such break; if it holds neither, the section starts one past
   * the floor (or at 0). A loop-head start at or below the floor is not
   * moved back: the section starts one past it (or at 0).
   */
  lemma BackwardCut(text: string, start: nat, end: int)
    requires start < |text|
    ensures var s, floor := SectionStart(text, start, end), Floor(end);
      && (0 < s && text[s - 1] in SENTENCE_ENDINGS ==> NoneIn(text, s, start + 1, SENTENCE_ENDINGS))
      && (floor < start && !NoneIn(text, floor + 1, start + 1, SENTENCE_ENDINGS) ==>
            0 < s && text[s - 1] in SENTENCE_ENDINGS)
      && (&& floor < start && NoneIn(text, floor, start + 1, SENTENCE_ENDINGS)
          && !NoneIn(text, floor + 1, start + 1, WORDS_BREAKS) ==>
            && floor < s - 1 <= start && text[s - 1] in WORDS_BREAKS
            && NoneIn(text, floor + 1, s - 1, WORDS_BREAKS))
      && (&& floor < start && NoneIn(text, floor + 1, start + 1, SENTENCE_ENDINGS)
          && NoneIn(text, floor + 1, start + 1, WORDS_BREAKS) ==>
            s == (if floor > 0 then floor + 1 else 0))
      && (start <= floor ==> s == (if start > 0 then start + 1 else 0))
  {
    var floor := Floor(end);
    if floor < start {
      var stop := LastIn(text, floor + 1, start + 1, SENTENCE_ENDINGS);
      var w := FirstIn(text, stop + 1, start + 1, WORDS_BREAKS);
      if w <= start {
        assert text[w] !in SENTENCE_ENDINGS;
      }
    }
  }

  /** Lines 157-169. */
  method ScanBackward(text: string, start: nat, end: int) returns (s: nat)
    requires start < |text|
    ensures s == SectionStart(text, start, end)
  {
    ghost var floor := Floor(end);
    var lastWord: int := -1;
    s := start;
    while s > 0 && s > end - MAX_SECTION_LENGTH - 2 * SENTENCE_SEARCH_LIMIT && text[s] !in SENTENCE_ENDINGS
      invariant s <= start
      invariant s == start || floor <= s
      invariant NoneIn(text, s + 1, start + 1, SENTENCE_ENDINGS)
      invariant lastWord == (if FirstIn(text, s + 1, start + 1, WORDS_BREAKS) <= start then FirstIn(text, s + 1, start + 1, WORDS_BREAKS) else -1)
    {
      if text[s] in WORDS_BREAKS {
        lastWord := s;
      }
      s := s - 1;
    }
    if floor < start {
      LastInAt(text, floor + 1, start + 1, SENTENCE_ENDINGS, s);
    }
    if text[s] !in SENTENCE_ENDINGS && lastWord > 0 {
      s := lastWord;
    }
    if s > 0 {
      s := s + 1;
    }
  }

  // ---------------------------------------------------------------------
  // The next loop-head start (lines 174-181)
  // ---------------------------------------------------------------------

  /**
   * Lines 174-181 as written: restart inside the section at its last
   * `<table` when that lies more than 2 * SSL characters in and no
   * `</table` follows it; otherwise keep an overlap of SECTION_OVERLAP.
   */
  function NextStartAsWritten(text: string, start: nat, end: nat): int
    requires start <= end <= |text|
  {
    var section := text[start..end];
    var lastTableStart := RFind(section, "<table");
    if lastTableStart > 2 * SENTENCE_SEARCH_LIMIT && lastTableStart > RFind(section, "</table") then
      Min(end - SECTION_OVERLAP, start + lastTableStart)
    else end - SECTION_OVERLAP
  }

  /**
   * The corrected step: lines 174-181, except that when they would give the
   * loop-head start back the value `head` it already holds (so that the
   * loop would repeat the same iteration forever), the loop is left with a
   * start that keeps SECTION_OVERLAP characters of the section.
   */
  function NextStart(text: string, head: nat, start: nat, end: nat): int
    requires start <= end <= |text|
  {
    var next := NextStartAsWritten(text, start, end);
    if next != head then next else end - SECTION_OVERLAP
  }

  /**
   * The section of one iteration reaches past its loop-head start plus the
   * overlap, starts at most one past it, is at most MAX + 2 * SSL long, and
   * the next start as written keeps at least SECTION_OVERLAP characters.
   */
  lemma SectionAround(text: string, start: nat)
    requires start + SECTION_OVERLAP < |text|
    ensures var end := SectionEnd(text, start);
      var lo := SectionStart(text, start, end);
      && start + SECTION_OVERLAP < end
      && lo <= start + 1 && lo < end
      && end - lo <= MAX_SECTION_LENGTH + 2 * SENTENCE_SEARCH_LIMIT
      && 0 <= NextStartAsWritten(text, lo, end) <= end - SECTION_OVERLAP
  {
  }

  /** A section that does not reach the text end: even the step as written advances. */
  lemma AsWrittenAdvancesUnclamped(text: string, start: nat)
    requires start + SECTION_OVERLAP < |text| && start + MAX_SECTION_LENGTH <= |text|
    ensures var end := SectionEnd(text, start);
      var lo := SectionStart(text, start, end);
      lo <= end && start < NextStartAsWritten(text, lo, end) <= end - SECTION_OVERLAP
  {
  }

  /** Every `<table` of the text is followed by a `</table`. */
  predicate TablesClosed(text: string)
  {
    RFind(text, "<table") == -1 || RFind(text, "<table") < RFind(text, "</table")
  }

  // ---------------------------------------------------------------------
  // The main loop (lines 129-184)
  // ---------------------------------------------------------------------

  /** The section one iteration cuts at loop-head start `start`. */
  function CutAt(text: string, start: nat): Cut
  {
    var end := SectionEnd(text, start);
    Cut(if start < |text| then SectionStart(text, start, end) else 0, end)
  }

  /** The loop-head start after the iteration at `start`, as lines 174-181 compute it. */
  function StepAsWritten(text: string, start: nat): nat
    requires start + SECTION_OVERLAP < |text|
  {
    SectionAround(text, start);
    NextStartAsWritten(text, CutAt(text, start).lo, CutAt(text, start).hi)
  }

  /** The loop-head start after the iteration at `start`, with the corrected step. */
  function Step(text: string, start: nat): nat
    requires start + SECTION_OVERLAP < |text|
  {
    SectionAround(text, start);
    NextStart(text, start, CutAt(text, start).lo, CutAt(text, start).hi)
  }

  /**
   * The corrected step is the step as written, except where that gives the
   * loop-head start back unchanged; there it leaves the loop.
   */
  lemma StepAgrees(text: string, start: nat)
    requires start + SECTION_OVERLAP < |text|
    ensures StepAsWritten(text, start) != start ==> Step(text, start) == StepAsWritten(text, start)
    ensures StepAsWritten(text, start) == start ==> Step(text, start) + SECTION_OVERLAP == CutAt(text, start).hi
    ensures StepAsWritten(text, start) == start ==> !(Step(text, start) + SECTION_OVERLAP < |text|)
  {
    SectionAround(text, start);
  }

  /** When every `<table` is closed, the corrected step is the step as written. */
  lemma StepAgreesClosed(text: string, start: nat)
    requires start + SECTION_OVERLAP < |text| && TablesClosed(text)
    ensures Step(text, start) == StepAsWritten(text, start)
  {
    var c := CutAt(text, start);
    SectionAround(text, start);
    if start + MAX_SECTION_LENGTH <= |text| {
      AsWrittenAdvancesUnclamped(text, start);
    } else {
      assert text[c.lo..c.hi] == text[c.lo..];
      RFindSuffix(text, "<table", c.lo);
      RFindSuffix(text, "</table", c.lo);
    }
  }

  /**
   * The iteration from the last `<table` of the text, when the section it
   * cuts reaches the text end, is the last one.
   */
  lemma RestartIsLast(text: string, p: nat)
    requires p + SECTION_OVERLAP < |text| && p + MAX_SECTION_LENGTH > |text| && p == RFind(text, "<table")
    ensures Step(text, p) + SECTION_OVERLAP == |text|
  {
    var c := CutAt(text, p);
    SectionAround(text, p);
    assert text[c.lo..c.hi] == text[c.lo..];
    RFindSuffix(text, "<table", c.lo);
  }

  /**
   * A section that reaches the text end is the last one unless the `<table`
   * guard fires; then exactly one more iteration runs, from the last `<table`
   * of the text, and its section reaches the text end too.
   */
  lemma ClampedStep(text: string, start: nat)
    requires start + SECTION_OVERLAP < |text| && start + MAX_SECTION_LENGTH > |text|
    ensures var next := Step(text, start);
      next + SECTION_OVERLAP < |text| ==>
        && next == RFind(text, "<table")
        && next + MAX_SECTION_LENGTH > |text|
        && Step(text, next) + SECTION_OVERLAP == |text|
  {
    var c := CutAt(text, start);
    SectionAround(text, start);
    assert text[c.lo..c.hi] == text[c.lo..];
    RFindSuffix(text, "<table", c.lo);
    var next := Step(text, start);
    if next + SECTION_OVERLAP < |text| {
      assert next == RFind(text, "<table");
      RestartIsLast(text, next);
    }
  }

  /**
   * What the corrected step decreases: the distance to the text end while
   * sections end before it, then the at most two iterations whose sections
   * reach it, the one from the last `<table` being the final one.
   */
  function Rank(text: string, start: nat): nat
  {
    if start + SECTION_OVERLAP >= |text| then 0
    else if start + MAX_SECTION_LENGTH <= |text| then 3 + |text| - start
    else if start == RFind(text, "<table") then 1
    else 2
  }

  /**
   * One iteration cuts a non-empty slice of at most MAX + 2 * SSL
   * characters, the next start keeps SECTION_OVERLAP characters of it, a
   * section that ends before the text does advances the loop-head start,
   * and every iteration decreases the rank.
   */
  lemma StepAdvances(text: string, start: nat)
    requires start + SECTION_OVERLAP < |text|
    ensures var c := CutAt(text, start);
      && c.lo <= start + 1 && start + SECTION_OVERLAP < c.hi <= |text|
      && c.hi - c.lo <= MAX_SECTION_LENGTH + 2 * SENTENCE_SEARCH_LIMIT
      && Step(text, start) <= c.hi - SECTION_OVERLAP
      && (start + MAX_SECTION_LENGTH <= |text| ==> start < Step(text, start))
      && Rank(text, Step(text, start)) < Rank(text, start)
  {
    SectionAround(text, start);
    if start + MAX_SECTION_LENGTH <= |text| {
      AsWrittenAdvancesUnclamped(text, start);
    } else {
      ClampedStep(text, start);
    }
  }

  /** The sections the loop cuts from loop-head start `start` on, with the corrected step. */
  function Cuts(text: string, start: nat): seq<Cut>
    decreases Rank(text, start)
  {
    if start + SECTION_OVERLAP < |text| then
      StepAdvances(text, start);
      [CutAt(text, start)] + Cuts(text, Step(text, start))
    else []
  }

  // ---------------------------------------------------------------------
  // The loop as written, and where the correction departs from it
  // ---------------------------------------------------------------------

  /**
   * A loop whose only state is its loop-head start: while `live` holds it
   * yields `at(start)` and moves to `next(start)`. The yielded values within
   * `fuel` iterations, or None when the loop has not finished by then.
   */
  function Unrolled<T>(live: nat -> bool, next: nat -> nat, at: nat -> T, start: nat, fuel: nat): Option<seq<T>>
    decreases fuel
  {
    if !live(start) then Some([])
    else if fuel == 0 then None
    else
      var rest := Unrolled(live, next, at, next(start), fuel - 1);
      if rest.Some? then Some([at(start)] + rest.value) else None
  }

  /** A live start that `next` gives back unchanged is repeated forever. */
  lemma {:induction false} UnrolledRepeats<T>(live: nat -> bool, next: nat -> nat, at: nat -> T, start: nat, fuel: nat)
    requires live(start) && next(start) == start
    ensures Unrolled(live, next, at, start, fuel) == None
    decreases fuel
  {
    if fuel > 0 {
      UnrolledRepeats(live, next, at, start, fuel - 1);
    }
  }

  /**
   * `run` is the loop with `fixed` in place of `next`, where `fixed` agrees
   * with `next` at every live start that `next` does not give back unchanged.
   */
  ghost predicate Corrects<T>(live: nat -> bool, next: nat -> nat, fixed: nat -> nat, at: nat -> T, run: nat -> seq<T>)
  {
    && (forall s :: live(s) && next(s) != s ==> fixed(s) == next(s))
    && (forall s :: live(s) ==> run(s) == [at(s)] + run(fixed(s)))
    && (forall s :: !live(s) ==> run(s) == [])
  }

  /** Whenever the loop with `next` finishes, it yields what the corrected loop `run` yields. */
  lemma {:induction false} UnrolledAgrees<T>(live: nat -> bool, next: nat -> nat, fixed: nat -> nat, at: nat -> T, run: nat -> seq<T>, start: nat, fuel: nat)
    requires Corrects(live, next, fixed, at, run)
    ensures Unrolled(live, next, at, start, fuel) == None || Unrolled(live, next, at, start, fuel) == Some(run(start))
    decreases fuel
  {
    if live(start) && fuel > 0 {
      if next(start) == start {
        UnrolledRepeats(live, next, at, start, fuel);
      } else {
        UnrolledAgrees(live, next, fixed, at, run, next(start), fuel - 1);
      }
    }
  }

  /**
   * When the corrected loop decreases `rank`, the loop with `next` either
   * finishes, yielding what the corrected loop yields, or never finishes.
   */
  lemma {:induction false} UnrolledDecided<T>(live: nat -> bool, next: nat -> nat, fixed: nat -> nat, at: nat -> T, run: nat -> seq<T>, rank: nat -> nat, start: nat)
    requires Corrects(live, next, fixed, at, run)
    requires forall s :: live(s) ==> rank(fixed(s)) < rank(s)
    ensures || (exists fuel: nat :: Unrolled(live, next, at, start, fuel) == Some(run(start)))
            || (forall fuel: nat :: Unrolled(live, next, at, start, fuel) == None)
    decreases rank(start)
  {
    if !live(start) {
      assert Unrolled(live, next, at, start, 0) == Some(run(start));
    } else if next(start) == start {
      forall fuel: nat
        ensures Unrolled(live, next, at, start, fuel) == None
      {
        UnrolledRepeats(live, next, at, start, fuel);
      }
    } else {
      UnrolledDecided(live, next, fixed, at, run, rank, next(start));
      if fuel: nat :| Unrolled(live, next, at, next(start), fuel) == Some(run(next(start))) {
        assert Unrolled(live, next, at, start, fuel + 1) == Some(run(start));
        assert exists fuel: nat :: Unrolled(live, next, at, start, fuel) == Some(run(start));
      } else {
        assert forall fuel: nat :: Unrolled(live, next, at, next(start), fuel) == None;
        forall fuel: nat
          ensures Unrolled(live, next, at, start, fuel) == None
        {
          if fuel > 0 {
            assert Unrolled(live, next, at, next(start), fuel - 1) == None;
          }
        }
      }
    }
  }

  /** The loop condition of line 133. */
  function LiveOf(text: string): nat -> bool
  {
    (s: nat) => s + SECTION_OVERLAP < |text|
  }

  /** The next loop-head start of lines 174-181 as written. */
  function NextAsWrittenOf(text: string): nat -> nat
  {
    (s: nat) => if s + SECTION_OVERLAP < |text| then StepAsWritten(text, s) else s
  }

  /** The next loop-head start with the corrected step. */
  function NextOf(text: string): nat -> nat
  {
    (s: nat) => if s + SECTION_OVERLAP < |text| then Step(text, s) else s
  }

  function AtOf(text: string): nat -> Cut
  {
    (s: nat) => CutAt(text, s)
  }

  function CutsOf(text: string): nat -> seq<Cut>
  {
    (s: nat) => Cuts(text, s)
  }

  function RankOf(text: string): nat -> nat
  {
    (s: nat) => Rank(text, s)
  }

  /**
   * The sections lines 133-181 as written cut from loop-head start `start`
   * within `fuel` iterations; None when the loop has not finished by then.
   */
  function CutsAsWritten(text: string, start: nat, fuel: nat): Option<seq<Cut>>
  {
    Unrolled(LiveOf(text), NextAsWrittenOf(text), AtOf(text), start, fuel)
  }

  /** The corrected loop is the loop as written with the corrected step. */
  lemma CutsCorrect(text: string)
    ensures Corrects(LiveOf(text), NextAsWrittenOf(text), NextOf(text), AtOf(text), CutsOf(text))
  {
    forall s: nat | s + SECTION_OVERLAP < |text| && StepAsWritten(text, s) != s
      ensures Step(text, s) == StepAsWritten(text, s)
    {
      StepAgrees(text, s);
    }
    forall s: nat | s + SECTION_OVERLAP < |text|
      ensures Cuts(text, s) == [CutAt(text, s)] + Cuts(text, Step(text, s))
    {
    }
  }

  /** A loop-head start that lines 174-181 give back unchanged repeats forever. */
  lemma AsWrittenRepeats(text: string, start: nat, fuel: nat)
    requires start + SECTION_OVERLAP < |text| && StepAsWritten(text, start) == start
    ensures CutsAsWritten(text, start, fuel) == None
  {
    UnrolledRepeats(LiveOf(text), NextAsWrittenOf(text), AtOf(text), start, fuel);
  }

  /** Whenever lines 133-181 as written finish, they cut exactly the sections of the corrected loop. */
  lemma AsWrittenAgrees(text: string, start: nat, fuel: nat)
    ensures CutsAsWritten(text, start, fuel) == None || CutsAsWritten(text, start, fuel) == Some(Cuts(text, start))
  {
    CutsCorrect(text);
    UnrolledAgrees(LiveOf(text), NextAsWrittenOf(text), NextOf(text), AtOf(text), CutsOf(text), start, fuel);
  }

  /** Every iteration of the corrected loop lowers Rank. */
  lemma RankDecreases(text: string)
    ensures forall s: nat :: LiveOf(text)(s) ==> RankOf(text)(NextOf(text)(s)) < RankOf(text)(s)
  {
    forall s: nat | s + SECTION_OVERLAP < |text|
      ensures Rank(text, Step(text, s)) < Rank(text, s)
    {
      StepAdvances(text, s);
    }
  }

  /**
   * Lines 133-181 as written either finish, with the sections of the
   * corrected loop, or never finish.
   */
  lemma AsWrittenDecided(text: string, start: nat)
    ensures || (exists fuel: nat :: CutsAsWritten(text, start, fuel) == Some(Cuts(text, start)))
            || (forall fuel: nat :: CutsAsWritten(text, start, fuel) == None)
  {
    DecidedUnrolled(text, start);
    if fuel: nat :| Unrolled(LiveOf(text), NextAsWrittenOf(text), AtOf(text), start, fuel) == Some(CutsOf(text)(start)) {
      assert CutsAsWritten(text, start, fuel) == Some(Cuts(text, start));
    } else {
      forall fuel: nat
        ensures CutsAsWritten(text, start, fuel) == None
      {
        assert Unrolled(LiveOf(text), NextAsWrittenOf(text), AtOf(text), start, fuel) == None;
      }
    }
  }

  lemma DecidedUnrolled(text: string, start: nat)
    ensures || (exists fuel: nat :: Unrolled(LiveOf(text), NextAsWrittenOf(text), AtOf(text), start, fuel) == Some(CutsOf(text)(start)))
      || (forall fuel: nat :: Unrolled(LiveOf(text), NextAsWrittenOf(text), AtOf(text), start, fuel) == None)
  {
    CutsCorrect(text);
    RankDecreases(text);
    UnrolledDecided(LiveOf(text), NextAsWrittenOf(text), NextOf(text), AtOf(text), CutsOf(text), RankOf(text), start);
  }

  /** In a text whose only `<` begins a `<table` at k, rfind finds that `<table` and no `</table`. */
  lemma OnlyTableTag(t: string, k: nat)
    requires k + 6 <= |t| && t[k..k + 6] == "<table"
    requires forall j :: 0 <= j < |t| && j != k ==> t[j] != '<'
    ensures RFind(t, "<table") == k && RFind(t, "</table") == -1
  {
    assert OccursAt(t, "<table", k);
    assert t[k + 1] == t[k..k + 6][1];
    forall j | k < j
      ensures !OccursAt(t, "<table", j)
    {
      if j + 6 <= |t| {
        assert t[j..j + 6][0] == t[j];
      }
    }
    forall j | 0 <= j
      ensures !OccursAt(t, "</table", j)
    {
      if j + 7 <= |t| {
        assert t[j..j + 7][0] == t[j] && t[j..j + 7][1] == t[j + 1];
      }
    }
  }

  /** A text on which lines 133-181 as written never finish. */
  function StallText(): string
  {
    seq(201, _ => 'a') + "<table" + seq(100, _ => 'a')
  }

  lemma StallTextChars()
    ensures |StallText()| == 307
    ensures forall k :: 0 <= k < 307 && k != 201 ==> StallText()[k] != '<'
    ensures StallText()[201..207] == "<table"
    ensures NoneIn(StallText(), 0, 307, SENTENCE_ENDINGS) && NoneIn(StallText(), 0, 307, WORDS_BREAKS)
  {
    var t := StallText();
    assert forall k :: 0 <= k < 201 ==> t[k] == 'a';
    assert forall k :: 207 <= k < 307 ==> t[k] == 'a';
    assert t[201..207] == "<table";
  }

  /** The two iterations on StallText: both cut [0, 307); the first moves to 201, the second stays there. */
  lemma StallTextSteps()
    ensures var t := StallText();
      && 201 + SECTION_OVERLAP < |t|
      && CutAt(t, 0) == Cut(0, 307) && StepAsWritten(t, 0) == 201
      && CutAt(t, 201) == Cut(0, 307) && StepAsWritten(t, 201) == 201
  {
    StallTextChars();
    var t := StallText();
    OnlyTableTag(t, 201);
    assert t[0..307] == t;
    LastInAt(t, 1, 202, SENTENCE_ENDINGS, 0);
    FirstInAt(t, 1, 202, WORDS_BREAKS, 202);
  }

  /**
   * On StallText (307 characters, an unclosed `<table` at 201) the loop as
   * written moves the loop-head start from 0 to 201 and then keeps it at
   * 201 while 201 + SECTION_OVERLAP < 307: it never finishes. The corrected
   * loop leaves after the iteration at 201.
   */
  lemma SplitTextStalls()
    ensures forall fuel: nat :: CutsAsWritten(StallText(), 0, fuel) == None
    ensures Cuts(StallText(), 0) == [Cut(0, 307), Cut(0, 307)]
  {
    StallNeverFinishes();
    StallCuts();
  }

  lemma StallNeverFinishes()
    ensures forall fuel: nat :: CutsAsWritten(StallText(), 0, fuel) == None
  {
    StallTextSteps();
    var t := StallText();
    forall fuel: nat
      ensures CutsAsWritten(t, 0, fuel) == None
    {
      if fuel > 0 {
        AsWrittenRepeats(t, 201, fuel - 1);
      }
    }
  }

  lemma StallCuts()
    ensures Cuts(StallText(), 0) == [Cut(0, 307), Cut(0, 307)]
  {
    StallTextSteps();
    var t := StallText();
    StepAgrees(t, 201);
    assert Cuts(t, 201) == [Cut(0, 307)];
    StepAgrees(t, 0);
  }

  /** A text on which lines 174-181 restart at an unclosed `<table` and the loop then finishes. */
  function RestartText(): string
  {
    seq(245, _ => 'a') + "." + seq(4, _ => 'a') + "<table" + seq(144, _ => 'a')
  }

  lemma RestartTextChars()
    ensures |RestartText()| == 400
    ensures forall k :: 0 <= k < 400 && k != 250 ==> RestartText()[k] != '<'
    ensures RestartText()[250..256] == "<table" && RestartText()[245] == '.'
    ensures NoneIn(RestartText(), 0, 245, SENTENCE_ENDINGS) && NoneIn(RestartText(), 246, 400, SENTENCE_ENDINGS)
    ensures NoneIn(RestartText(), 0, 400, WORDS_BREAKS)
  {
    var t := RestartText();
    assert forall k :: 0 <= k < 245 ==> t[k] == 'a';
    assert forall k :: 246 <= k < 250 ==> t[k] == 'a';
    assert forall k :: 256 <= k < 400 ==> t[k] == 'a';
    assert t[250..256] == "<table";
  }

  /** The two iterations on RestartText: [0, 400) restarting at 250, then [246, 400) moving to 300. */
  lemma RestartTextSteps()
    ensures var t := RestartText();
      && 250 + SECTION_OVERLAP < |t| && !(300 + SECTION_OVERLAP < |t|)
      && CutAt(t, 0) == Cut(0, 400) && StepAsWritten(t, 0) == 250
      && CutAt(t, 250) == Cut(246, 400) && StepAsWritten(t, 250) == 300
  {
    RestartTextChars();
    var t := RestartText();
    OnlyTableTag(t, 250);
    assert t[0..400] == t;
    assert t[246..400] == t[246..];
    RFindSuffix(t, "<table", 246);
    RFindSuffix(t, "</table", 246);
    LastInAt(t, 1, 251, SENTENCE_ENDINGS, 245);
    FirstInAt(t, 246, 251, WORDS_BREAKS, 251);
  }

  /**
   * On RestartText (400 characters, a `.` at 245, an unclosed `<table` at
   * 250) lines 133-181 as written cut [0, 400), restart at 250, cut
   * [246, 400) and finish; the corrected loop cuts the same two sections.
   */
  lemma SplitTextRestarts()
    ensures CutsAsWritten(RestartText(), 0, 2) == Some([Cut(0, 400), Cut(246, 400)])
    ensures Cuts(RestartText(), 0) == [Cut(0, 400), Cut(246, 400)]
  {
    RestartTextSteps();
    var t := RestartText();
    var rest := CutsAsWritten(t, StepAsWritten(t, 250), 0);
    assert rest == Some([]);
    assert CutsAsWritten(t, 250, 1) == Some([CutAt(t, 250)] + rest.value);
    assert [CutAt(t, 250)] + rest.value == [Cut(246, 400)];
    var more := CutsAsWritten(t, StepAsWritten(t, 0), 1);
    assert more == Some([Cut(246, 400)]);
    assert CutsAsWritten(t, 0, 2) == Some([CutAt(t, 0)] + more.value);
    assert [CutAt(t, 0)] + more.value == [Cut(0, 400), Cut(246, 400)];
    AsWrittenAgrees(t, 0, 2);
  }

  /** find_page (lines 122-127) from index i on. */
  function PageFrom(pm: seq<Entry>, offset: int, i: nat): int
    decreases |pm| - i
  {
    if i + 1 >= |pm| then |pm| - 1
    else if pm[i].offset <= offset < pm[i + 1].offset then i
    else PageFrom(pm, offset, i + 1)
  }

  function PageOf(pm: seq<Entry>, offset: int): int
  {
    PageFrom(pm, offset, 0)
  }

  /** Lines 122-127. */
  method FindPage(pageMap: seq<Entry>, offset: int) returns (page: int)
    ensures page == PageOf(pageMap, offset)
  {
    var l := |pageMap|;
    var i := 0;
    while i < l - 1
      invariant 0 <= i && PageFrom(pageMap, offset, i) == PageOf(pageMap, offset)
    {
      if offset >= pageMap[i].offset && offset < pageMap[i + 1].offset {
        return i;
      }
      i := i + 1;
    }
    return l - 1;
  }

  /** The sections for the cuts: each slice with the page of its first character. */
  function SectionsOf(text: string, pm: seq<Entry>, cuts: seq<Cut>): (sections: seq<Section>)
    ensures |sections| == |cuts|
  {
    if cuts == [] then []
    else [Section(Slice(text, cuts[0].lo, cuts[0].hi), PageOf(pm, cuts[0].lo))] + SectionsOf(text, pm, cuts[1..])
  }

  /** What split_text yields for a page map. */
  function Sections(pm: seq<Entry>): seq<Section>
  {
    SectionsOf(AllText(pm), pm, Cuts(AllText(pm), 0))
  }

  lemma {:induction false} SectionsOfAt(text: string, pm: seq<Entry>, cuts: seq<Cut>, i: nat)
    requires i < |cuts|
    ensures SectionsOf(text, pm, cuts)[i] == Section(Slice(text, cuts[i].lo, cuts[i].hi), PageOf(pm, cuts[i].lo))
    decreases i
  {
    if i > 0 {
      SectionsOfAt(text, pm, cuts[1..], i - 1);
    }
  }

  lemma SectionsOfCons(text: string, pm: seq<Entry>, c: Cut, cuts: seq<Cut>)
    ensures SectionsOf(text, pm, [c] + cuts)
         == [Section(Slice(text, c.lo, c.hi), PageOf(pm, c.lo))] + SectionsOf(text, pm, cuts)
  {
    assert ([c] + cuts)[1..] == cuts;
  }

  lemma SnocCons<T>(a: seq<T>, x: T, b: seq<T>)
    ensures (a + [x]) + b == a + ([x] + b)
  {
  }

  /** Lines 174-181, with the corrected step of NextStart: `head` is the loop-head start. */
  method NextSectionStart(text: string, head: nat, start: nat, end: nat, sectionText: string) returns (next: int)
    requires start <= end <= |text| && sectionText == text[start..end]
    ensures next == NextStart(text, head, start, end)
  {
    var lastTableStart := RFind(sectionText, "<table");
    if lastTableStart > 2 * SENTENCE_SEARCH_LIMIT && lastTableStart > RFind(sectionText, "</table") {
      next := Min(end - SECTION_OVERLAP, start + lastTableStart);
    } else {
      next := end - SECTION_OVERLAP;
    }
    if next == head {
      next := end - SECTION_OVERLAP;
    }
  }

  /** One iteration of lines 133-181: the section cut at loop-head start `start`, and the next start. */
  method CutSection(pageMap: seq<Entry>, allText: string, start: nat) returns (section: Section, end: nat, next: nat)
    requires start + SECTION_OVERLAP < |allText|
    ensures var c := CutAt(allText, start);
      && end == c.hi
      && section == Section(Slice(allText, c.lo, c.hi), PageOf(pageMap, c.lo))
      && next == Step(allText, start)
  {
    end := ScanForward(allText, start);
    var sectionStart := ScanBackward(allText, start, end);
    SectionAround(allText, start);
    var sectionText := allText[sectionStart..end];
    var page := FindPage(pageMap, sectionStart);
    section := Section(sectionText, page);
    next := NextSectionStart(allText, start, sectionStart, end, sectionText);
  }

  /** split_text (lines 118-184), with the corrected step of NextStart. */
  method SplitText(pageMap: seq<Entry>) returns (sections: seq<Section>)
    ensures sections == Sections(pageMap)
  {
    var allText := AllText(pageMap);
    var length := |allText|;
    var start: int := 0;
    var end := length;
    sections := [];
    while start + SECTION_OVERLAP < length
      invariant 0 <= start && end <= length
      invariant sections + SectionsOf(allText, pageMap, Cuts(allText, start)) == Sections(pageMap)
      decreases Rank(allText, start)
    {
      ghost var head := start;
      StepAdvances(allText, head);
      var section;
      section, end, start := CutSection(pageMap, allText, start);
      SectionsOfCons(allText, pageMap, CutAt(allText, head), Cuts(allText, start));
      SnocCons(sections, section, SectionsOf(allText, pageMap, Cuts(allText, start)));
      sections := sections + [section];
    }
    // Lines 183-184 never add a section: the loop ends with start + SECTION_OVERLAP >= length >= end.
    assert !(start + SECTION_OVERLAP < end);
  }

  // ---------------------------------------------------------------------
  // Properties of the sections
  // ---------------------------------------------------------------------

  /** The last section reaches the text end. */
  lemma {:induction false} CutsReachEnd(text: string, start: nat)
    requires start + SECTION_OVERLAP < |text|
    ensures |Cuts(text, start)| > 0 && Cuts(text, start)[|Cuts(text, start)| - 1].hi == |text|
    decreases Rank(text, start)
  {
    StepAdvances(text, start);
    var next := Step(text, start);
    if next + SECTION_OVERLAP < |text| {
      CutsReachEnd(text, next);
    }
  }

  /**
   * Consecutive sections overlap by at least SECTION_OVERLAP - 1
   * characters (a section may start one past its loop-head start).
   */
  lemma {:induction false} CutsOverlap(text: string, start: nat, i: nat)
    requires i + 1 < |Cuts(text, start)|
    ensures Cuts(text, start)[i + 1].lo + SECTION_OVERLAP - 1 <= Cuts(text, start)[i].hi
    decreases i
  {
    StepAdvances(text, start);
    var next := Step(text, start);
    if i > 0 {
      CutsOverlap(text, next, i - 1);
    } else {
      StepAdvances(text, next);
    }
  }

  /** Every cut is a non-empty slice of the text of at most MAX + 2 * SSL characters. */
  lemma {:induction false} CutBounds(text: string, start: nat, i: nat)
    requires i < |Cuts(text, start)|
    ensures var c := Cuts(text, start)[i];
      c.lo < c.hi <= |text| && c.hi - c.lo <= MAX_SECTION_LENGTH + 2 * SENTENCE_SEARCH_LIMIT
    decreases i
  {
    StepAdvances(text, start);
    if i > 0 {
      CutBounds(text, Step(text, start), i - 1);
    }
  }

  /** Every position from the first section's start to the text end lies in some section. */
  lemma {:induction false} CutsCover(text: string, start: nat, p: nat)
    requires start + SECTION_OVERLAP < |text| && p < |text|
    requires Cuts(text, start)[0].lo <= p
    ensures exists i :: 0 <= i < |Cuts(text, start)| && Cuts(text, start)[i].lo <= p < Cuts(text, start)[i].hi
    decreases Rank(text, start)
  {
    StepAdvances(text, start);
    var next := Step(text, start);
    var cuts, rest := Cuts(text, start), Cuts(text, next);
    if p < cuts[0].hi {
      assert cuts[0].lo <= p < cuts[0].hi;
    } else {
      StepAdvances(text, next);
      CutsCover(text, next, p);
      var i :| 0 <= i < |rest| && rest[i].lo <= p < rest[i].hi;
      assert cuts[i + 1] == rest[i];
    }
  }

  /**
   * The shape of the sections of a text: none when the text (even the
   * empty one) has at most SECTION_OVERLAP characters; otherwise the first
   * starts at 0, the last ends at the text end, and every character p of
   * the text lies in one of them.
   */
  lemma CutsShape(text: string, p: nat)
    ensures |Cuts(text, 0)| == 0 <==> |text| <= SECTION_OVERLAP
    ensures |text| > SECTION_OVERLAP ==>
      && Cuts(text, 0)[0].lo == 0
      && Cuts(text, 0)[|Cuts(text, 0)| - 1].hi == |text|
      && (p < |text| ==> exists i :: 0 <= i < |Cuts(text, 0)| && Cuts(text, 0)[i].lo <= p < Cuts(text, 0)[i].hi)
  {
    if |text| > SECTION_OVERLAP {
      CutsReachEnd(text, 0);
      if p < |text| {
        CutsCover(text, 0, p);
      }
    }
  }

  /** The empty text yields no sections. */
  lemma NoCutsOfEmpty()
    ensures Cuts("", 0) == []
  {
    CutsShape("", 0);
  }

  /** find_page from i on, in a well-formed map, names the page holding the offset. */
  lemma {:induction false} PageFromLocates(pm: seq<Entry>, offset: int, i: nat)
    requires WellFormed(pm) && i < |pm| && pm[i].offset <= offset < |AllText(pm)|
    ensures var k := PageFrom(pm, offset, i);
      i <= k < |pm| && pm[k].offset <= offset < pm[k].offset + |pm[k].text|
    decreases |pm| - i
  {
    EntryEnd(pm, i);
    if i + 1 >= |pm| {
      assert pm[..i + 1] == pm;
    } else {
      WellFormedAt(pm, i + 1);
      if offset >= pm[i + 1].offset {
        PageFromLocates(pm, offset, i + 1);
      }
    }
  }

  /** In a well-formed page map, find_page names the page whose text holds the offset. */
  lemma PageOfLocates(pm: seq<Entry>, offset: nat)
    requires WellFormed(pm) && offset < |AllText(pm)|
    ensures 0 <= PageOf(pm, offset) < |pm|
    ensures var k := PageOf(pm, offset); pm[k].offset <= offset < pm[k].offset + |pm[k].text|
  {
    WellFormedAt(pm, 0);
    assert pm[..0] == [];
    PageFromLocates(pm, offset, 0);
  }

  /**
   * Section i of a well-formed page map is the slice of the linear text
   * given by cut i, non-empty and at most MAX + 2 * SSL long, tagged with
   * the page that holds its first character.
   */
  lemma SectionIsSlice(pm: seq<Entry>, i: nat)
    requires WellFormed(pm) && i < |Sections(pm)|
    ensures var text, c := AllText(pm), Cuts(AllText(pm), 0)[i];
      && 0 <= c.lo < c.hi <= |text|
      && c.hi - c.lo <= MAX_SECTION_LENGTH + 2 * SENTENCE_SEARCH_LIMIT
      && Sections(pm)[i].content == text[c.lo..c.hi]
      && var k := Sections(pm)[i].page;
         0 <= k < |pm| && pm[k].offset <= c.lo < pm[k].offset + |pm[k].text|
  {
    var text := AllText(pm);
    var cuts := Cuts(text, 0);
    CutBounds(text, 0, i);
    SectionsOfAt(text, pm, cuts, i);
    PageOfLocates(pm, cuts[i].lo);
  }
}
