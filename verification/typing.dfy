/**
 The typewriter effect of the hero section.

 The name pass types a fixed name one character per step and then hands
 off to the profession pass. The profession pass cycles through a fixed
 list of strings: it types one forward to its full length, pauses, deletes
 it back to nothing, pauses, and moves to the next string (wrapping round).
 Every step yields what the element shows and the delay in milliseconds
 before the next step; timers themselves are not modelled.
 */
module Typing {

  const NameText: string := "Marco Argote"

  const ProfessionTexts: seq<string> := [
    "Full Stack Developer",
    "Fundador & CEO de Pensala",
    "Ingeniero en Sistemas"
  ]

  /** Delays, in milliseconds, that the two passes schedule. */
  const NameDelay: nat := 100
  const HandOffDelay: nat := 500
  const TypeDelay: nat := 150
  const DeleteDelay: nat := 50
  const FullPause: nat := 2000
  const EmptyPause: nat := 500

  /** Contents of an element: a text, with or without the blinking cursor
      that is appended as a trailing span. */
  datatype Display = Display(text: string, cursor: bool)

  /** JavaScript's `s.slice(0, end)`: a negative end counts back from the
      end of the string, and the end is clamped to `[0, |s|]`. */
  function SlicePrefix(s: string, end: int): (r: string)
    ensures 0 <= end <= |s| ==> r == s[..end]
    ensures end > |s| ==> r == s
    ensures end < 0 ==> r == s[..if |s| + end < 0 then 0 else |s| + end]
  {
    var e := if end < 0 then |s| + end else end;
    if e < 0 then [] else if e > |s| then s else s[..e]
  }

  // ---------------------------------------------------------------------
  // Name pass
  // ---------------------------------------------------------------------

  datatype NameStep = NameStep(
    nameIndex: nat,   // index after the step
    shown: Display,   // what the name element shows
    delay: nat,       // delay before the next call
    handOff: bool)    // the next call is the profession pass

  /** One call of the name pass with `i` characters already typed. */
  function StepName(name: string, i: nat): (r: NameStep)
    ensures i < |name| ==>
      r.nameIndex == i + 1 && r.shown == Display(name[..i + 1], true)
      && r.delay == NameDelay && !r.handOff
    ensures i >= |name| ==>
      r.nameIndex == i && r.shown == Display(name, false)
      && r.delay == HandOffDelay && r.handOff
  {
    if i < |name| then NameStep(i + 1, Display(name[..i + 1], true), NameDelay, false)
    else NameStep(i, Display(name, false), HandOffDelay, true)
  }

  /** The index reached after `k` name steps from `i`. */
  function RunName(name: string, i: nat, k: nat): nat
    decreases k
  {
    if k == 0 then i else RunName(name, StepName(name, i).nameIndex, k - 1)
  }

  /** From the start, the first `|name|` steps each type one more
      character and keep the name pass going; the next step shows the whole
      name without a cursor and hands off. */
  lemma {:induction false} NamePassTypesOneCharPerStep(name: string, k: nat)
    requires k <= |name|
    ensures RunName(name, 0, k) == k
    ensures k < |name| ==> StepName(name, RunName(name, 0, k)).shown == Display(name[..k + 1], true)
    ensures k < |name| ==> !StepName(name, RunName(name, 0, k)).handOff
    ensures k == |name| ==> StepName(name, RunName(name, 0, k)) == NameStep(k, Display(name, false), HandOffDelay, true)
  {
    RunNameFrom(name, 0, k);
  }

  lemma {:induction false} RunNameFrom(name: string, i: nat, k: nat)
    requires i + k <= |name|
    ensures RunName(name, i, k) == i + k
    decreases k
  {
    if k > 0 {
      RunNameFrom(name, i + 1, k - 1);
    }
  }

  // ---------------------------------------------------------------------
  // Profession pass
  // ---------------------------------------------------------------------

  datatype ProfessionState = ProfessionState(textIdx: nat, charIdx: int, isDeleting: bool)

  const ProfessionStart: ProfessionState := ProfessionState(0, 0, false)

  /** The text after `t`, wrapping round a list of `n` texts. */
  function NextText(t: nat, n: nat): (r: nat)
    requires t < n
    ensures r < n
    ensures t + 1 < n ==> r == t + 1
    ensures t + 1 == n ==> r == 0
  {
    (t + 1) % n
  }

  datatype ProfessionStep = ProfessionStep(next: ProfessionState, shown: Display, delay: nat)

  /** One call of the profession pass. The character index moves first, the
      element shows that prefix of the current text, and then a full text
      flips the pass to deleting and an emptied one moves to the next text. */
  function StepProfession(texts: seq<string>, s: ProfessionState): (r: ProfessionStep)
    requires s.textIdx < |texts|
    ensures r.next.textIdx < |texts|
    ensures r.next.charIdx == (if s.isDeleting then s.charIdx - 1 else s.charIdx + 1)
    ensures r.shown.cursor
    ensures r.shown.text <= texts[s.textIdx]
    ensures 0 <= r.next.charIdx <= |texts[s.textIdx]| ==> |r.shown.text| == r.next.charIdx
    ensures !s.isDeleting && r.next.charIdx == |texts[s.textIdx]| ==>
      r.next.isDeleting && r.next.textIdx == s.textIdx && r.delay == FullPause
    ensures s.isDeleting && r.next.charIdx == 0 ==>
      !r.next.isDeleting && r.next.textIdx == NextText(s.textIdx, |texts|) && r.delay == EmptyPause
    ensures !s.isDeleting && r.next.charIdx != |texts[s.textIdx]| ==>
      !r.next.isDeleting && r.next.textIdx == s.textIdx && r.delay == TypeDelay
    ensures s.isDeleting && r.next.charIdx != 0 ==>
      r.next.isDeleting && r.next.textIdx == s.textIdx && r.delay == DeleteDelay
  {
    var text := texts[s.textIdx];
    var c := if s.isDeleting then s.charIdx - 1 else s.charIdx + 1;
    var shown := Display(SlicePrefix(text, c), true);
    if !s.isDeleting && c == |text| then
      ProfessionStep(ProfessionState(s.textIdx, c, true), shown, FullPause)
    else if s.isDeleting && c == 0 then
      ProfessionStep(ProfessionState(NextText(s.textIdx, |texts|), c, false), shown, EmptyPause)
    else
      ProfessionStep(ProfessionState(s.textIdx, c, s.isDeleting), shown,
                     if s.isDeleting then DeleteDelay else TypeDelay)
  }

  /** The state after `k` profession steps. */
  function RunProfession(texts: seq<string>, s: ProfessionState, k: nat): (r: ProfessionState)
    requires s.textIdx < |texts|
    ensures r.textIdx < |texts|
    decreases k
  {
    if k == 0 then s else RunProfession(texts, StepProfession(texts, s).next, k - 1)
  }

  /** The delays scheduled by `k` profession steps, in order. */
  function Delays(texts: seq<string>, s: ProfessionState, k: nat): seq<nat>
    requires s.textIdx < |texts|
    decreases k
  {
    if k == 0 then []
    else [StepProfession(texts, s).delay] + Delays(texts, StepProfession(texts, s).next, k - 1)
  }

  function Repeat(d: nat, k: nat): (r: seq<nat>)
    ensures |r| == k && forall p | 0 <= p < k :: r[p] == d
  {
    if k == 0 then [] else [d] + Repeat(d, k - 1)
  }

  predicate AllNonEmpty(texts: seq<string>) {
    forall t | 0 <= t < |texts| :: |texts[t]| > 0
  }

  /** The state invariant of the profession pass: the text index is in range,
      a text being typed is not yet complete, and a text being deleted still
      has a character left. */
  predicate Inv(texts: seq<string>, s: ProfessionState) {
    && s.textIdx < |texts|
    && (if s.isDeleting then 1 <= s.charIdx <= |texts[s.textIdx]|
        else 0 <= s.charIdx < |texts[s.textIdx]|)
  }

  lemma StartSatisfiesInv(texts: seq<string>)
    requires |texts| > 0 && AllNonEmpty(texts)
    ensures Inv(texts, ProfessionStart)
  {
    assert |texts[0]| > 0;
  }

  /** A step from a state satisfying the invariant keeps it, and shows a
      prefix of the current text no longer than the text. */
  lemma StepKeepsInv(texts: seq<string>, s: ProfessionState)
    requires AllNonEmpty(texts) && Inv(texts, s)
    ensures Inv(texts, StepProfession(texts, s).next)
    ensures 0 <= StepProfession(texts, s).next.charIdx <= |texts[s.textIdx]|
    ensures StepProfession(texts, s).shown.text <= texts[s.textIdx]
  {
    var r := StepProfession(texts, s);
    assert |texts[r.next.textIdx]| > 0;
  }

  /** Started at `(0, 0, false)` with non-empty texts, after any number of
      steps the text index is in range and the character index lies within
      the current text. */
  lemma {:induction false} ReachableStatesAreBounded(texts: seq<string>, k: nat)
    requires |texts| > 0 && AllNonEmpty(texts)
    ensures Inv(texts, RunProfession(texts, ProfessionStart, k))
    ensures 0 <= RunProfession(texts, ProfessionStart, k).textIdx < |texts|
    ensures 0 <= RunProfession(texts, ProfessionStart, k).charIdx
             <= |texts[RunProfession(texts, ProfessionStart, k).textIdx]|
  {
    StartSatisfiesInv(texts);
    InvHoldsAfter(texts, ProfessionStart, k);
  }

  lemma {:induction false} InvHoldsAfter(texts: seq<string>, s: ProfessionState, k: nat)
    requires AllNonEmpty(texts) && Inv(texts, s)
    ensures Inv(texts, RunProfession(texts, s, k))
    decreases k
  {
    if k > 0 {
      StepKeepsInv(texts, s);
      InvHoldsAfter(texts, StepProfession(texts, s).next, k - 1);
    }
  }

  /** Typing forward from `c` reaches the full text after `|text| - c`
      steps, waiting 150 ms between characters and 2000 ms at the end, and
      leaves the pass deleting the same text. */
  lemma {:induction false} TypeForward(texts: seq<string>, t: nat, c: nat)
    requires t < |texts| && c < |texts[t]|
    ensures RunProfession(texts, ProfessionState(t, c, false), |texts[t]| - c)
            == ProfessionState(t, |texts[t]|, true)
    ensures Delays(texts, ProfessionState(t, c, false), |texts[t]| - c)
            == Repeat(TypeDelay, |texts[t]| - c - 1) + [FullPause]
    decreases |texts[t]| - c
  {
    var s := ProfessionState(t, c, false);
    if c + 1 < |texts[t]| {
      assert StepProfession(texts, s).next == ProfessionState(t, c + 1, false);
      TypeForward(texts, t, c + 1);
    }
  }

  /** Deleting from `c` empties the text after `c` steps, waiting 50 ms
      between characters and 500 ms at the end, and moves on to the next
      text, typing. */
  lemma {:induction false} DeleteBack(texts: seq<string>, t: nat, c: nat)
    requires t < |texts| && 1 <= c <= |texts[t]|
    ensures RunProfession(texts, ProfessionState(t, c, true), c)
            == ProfessionState((t + 1) % |texts|, 0, false)
    ensures Delays(texts, ProfessionState(t, c, true), c)
            == Repeat(DeleteDelay, c - 1) + [EmptyPause]
    decreases c
  {
    var s := ProfessionState(t, c, true);
    if c > 1 {
      assert StepProfession(texts, s).next == ProfessionState(t, c - 1, true);
      DeleteBack(texts, t, c - 1);
    }
  }

  lemma {:induction false} RunSplit(texts: seq<string>, s: ProfessionState, a: nat, b: nat)
    requires s.textIdx < |texts|
    ensures RunProfession(texts, s, a + b) == RunProfession(texts, RunProfession(texts, s, a), b)
    ensures Delays(texts, s, a + b) == Delays(texts, s, a) + Delays(texts, RunProfession(texts, s, a), b)
    decreases a
  {
    if a > 0 {
      RunSplit(texts, StepProfession(texts, s).next, a - 1, b);
    }
  }

  /** One full cycle on a non-empty text takes `2 * |text|` steps, schedules
      `|text| - 1` typing delays, the 2000 ms pause, `|text| - 1` deleting
      delays and the 500 ms pause, and lands on the next text, typing, at
      index 0. */
  lemma FullCycle(texts: seq<string>, t: nat)
    requires t < |texts| && |texts[t]| > 0
    ensures RunProfession(texts, ProfessionState(t, 0, false), 2 * |texts[t]|)
            == ProfessionState((t + 1) % |texts|, 0, false)
    ensures Delays(texts, ProfessionState(t, 0, false), 2 * |texts[t]|)
            == Repeat(TypeDelay, |texts[t]| - 1) + [FullPause]
               + Repeat(DeleteDelay, |texts[t]| - 1) + [EmptyPause]
  {
    var n := |texts[t]|;
    var s := ProfessionState(t, 0, false);
    RunSplit(texts, s, n, n);
    TypeForward(texts, t, 0);
    DeleteBack(texts, t, n);
  }

  /** The non-empty texts are what keeps the pass bounded: on an empty text
      the index runs past the end and the pass never starts deleting. */
  lemma {:induction false} EmptyTextNeverDeletes(texts: seq<string>, t: nat, c: nat, k: nat)
    requires t < |texts| && texts[t] == ""
    ensures RunProfession(texts, ProfessionState(t, c, false), k) == ProfessionState(t, c + k, false)
    decreases k
  {
    if k > 0 {
      EmptyTextNeverDeletes(texts, t, c + 1, k - 1);
    }
  }

  // ---------------------------------------------------------------------
  // The two passes together
  // ---------------------------------------------------------------------

  datatype Typewriter =
    | Naming(nameIndex: nat)
    | Professing(profession: ProfessionState)

  /** What one step writes: into the name element or the profession one. */
  datatype Output = NameOutput(shown: Display) | ProfessionOutput(shown: Display)

  datatype TypewriterStep = TypewriterStep(next: Typewriter, output: Output, delay: nat)

  /** The whole effect as one machine: the name pass until it hands off,
      then the profession pass from its initial state. */
  function StepTypewriter(name: string, texts: seq<string>, w: Typewriter): (r: TypewriterStep)
    requires |texts| > 0
    requires w.Professing? ==> w.profession.textIdx < |texts|
    ensures r.next.Professing? ==> r.next.profession.textIdx < |texts|
    ensures w.Naming? && w.nameIndex < |name| ==> r.next == Naming(w.nameIndex + 1)
    ensures w.Naming? && w.nameIndex >= |name| ==>
      r.next == Professing(ProfessionStart) && r.output == NameOutput(Display(name, false))
    ensures w.Professing? ==> r.next.Professing? && r.output.ProfessionOutput?
  {
    match w
    case Naming(i) =>
      var st := StepName(name, i);
      TypewriterStep(if st.handOff then Professing(ProfessionStart) else Naming(st.nameIndex),
                     NameOutput(st.shown), st.delay)
    case Professing(p) =>
      var st := StepProfession(texts, p);
      TypewriterStep(Professing(st.next), ProfessionOutput(st.shown), st.delay)
  }

  function RunTypewriter(name: string, texts: seq<string>, w: Typewriter, k: nat): (r: Typewriter)
    requires |texts| > 0
    requires w.Professing? ==> w.profession.textIdx < |texts|
    ensures r.Professing? ==> r.profession.textIdx < |texts|
    decreases k
  {
    if k == 0 then w else RunTypewriter(name, texts, StepTypewriter(name, texts, w).next, k - 1)
  }

  lemma {:induction false} RunTypewriterNaming(name: string, texts: seq<string>, i: nat, k: nat)
    requires |texts| > 0
    requires i + k <= |name|
    ensures RunTypewriter(name, texts, Naming(i), k) == Naming(i + k)
    decreases k
  {
    if k > 0 {
      RunTypewriterNaming(name, texts, i + 1, k - 1);
    }
  }

  lemma {:induction false} RunTypewriterProfessing(name: string, texts: seq<string>, p: ProfessionState, k: nat)
    requires |texts| > 0 && p.textIdx < |texts|
    ensures RunTypewriter(name, texts, Professing(p), k) == Professing(RunProfession(texts, p, k))
    decreases k
  {
    if k > 0 {
      RunTypewriterProfessing(name, texts, StepProfession(texts, p).next, k - 1);
    }
  }

  /** From the start the machine spends exactly `|name| + 1` steps in the
      name pass and then runs the profession pass from `(0, 0, false)`. */
  lemma HandOffAfterName(name: string, texts: seq<string>, k: nat)
    requires |texts| > 0
    ensures k <= |name| ==> RunTypewriter(name, texts, Naming(0), k) == Naming(k)
    ensures k > |name| ==>
      RunTypewriter(name, texts, Naming(0), k)
      == Professing(RunProfession(texts, ProfessionStart, k - |name| - 1))
  {
    if k <= |name| {
      RunTypewriterNaming(name, texts, 0, k);
    } else {
      var m := k - |name| - 1;
      RunTypewriterNaming(name, texts, 0, |name|);
      RunTypewriterSplit(name, texts, Naming(0), |name|, 1);
      HandOffStep(name, texts);
      assert RunTypewriter(name, texts, Naming(0), |name| + 1) == Professing(ProfessionStart);
      RunTypewriterSplit(name, texts, Naming(0), |name| + 1, m);
      RunTypewriterProfessing(name, texts, ProfessionStart, m);
    }
  }

  /** The step after a complete name hands off to the profession pass. */
  lemma HandOffStep(name: string, texts: seq<string>)
    requires |texts| > 0
    ensures RunTypewriter(name, texts, Naming(|name|), 1) == Professing(ProfessionStart)
  {
    assert StepTypewriter(name, texts, Naming(|name|)).next == Professing(ProfessionStart);
  }

  lemma {:induction false} RunTypewriterSplit(name: string, texts: seq<string>, w: Typewriter, a: nat, b: nat)
    requires |texts| > 0
    requires w.Professing? ==> w.profession.textIdx < |texts|
    ensures RunTypewriter(name, texts, w, a + b)
            == RunTypewriter(name, texts, RunTypewriter(name, texts, w, a), b)
    decreases a
  {
    if a > 0 {
      RunTypewriterSplit(name, texts, StepTypewriter(name, texts, w).next, a - 1, b);
    }
  }

  /** For the page's own name and texts: the typewriter is in range after
      any number of steps. */
  lemma PageTypewriterIsBounded(k: nat)
    ensures k <= |NameText| ==> RunTypewriter(NameText, ProfessionTexts, Naming(0), k) == Naming(k)
    ensures k > |NameText| ==>
      var w := RunTypewriter(NameText, ProfessionTexts, Naming(0), k);
      w.Professing? && Inv(ProfessionTexts, w.profession)
  {
    assert AllNonEmpty(ProfessionTexts) by {
      assert |ProfessionTexts[0]| == 20;
      assert |ProfessionTexts[1]| == 25;
      assert |ProfessionTexts[2]| == 21;
    }
    HandOffAfterName(NameText, ProfessionTexts, k);
    if k > |NameText| {
      ReachableStatesAreBounded(ProfessionTexts, k - |NameText| - 1);
    }
  }
}
